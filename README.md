# Sphere ray tracer, modelled in Dafny

This project models the core of a small sphere ray tracer written in C++.
The model covers four parts:

- **Vectors** (`vectors.dfy`): the `Vec3` template of `p4.h`, meaning
  component-wise arithmetic, `dot`, `length2`, `length` and `normalize`.
- **Spheres** (`spheres.dfy`): the `Sphere` template of `p4.h`. This is the
  constructor that caches `radius2`, and the geometric `intersect` test with
  its two early exits and its out-pointers.
- **Tracer** (`tracer.dfy`): `trace` of `p4.cpp`, a tracer with two modes.
  - In primary mode it looks for the nearest hit among every sphere except
    the trailing `NLIGHTS` lights. It shades the hit with one hard shadow
    test per emissive sphere, then folds in a specular term from one probe
    call.
  - In probe mode it scans only the trailing lights and answers with the
    ray direction itself.
  - A miss answers with the background sentinel `(-1, -1, -1)`.
- **Render** (`render.dfy`): `render` of `p4.cpp`, which works in two passes.
  - The first pass fills a row-major `WIDTH * HEIGHT` buffer with one
    primary ray per pixel.
  - The second pass composites that buffer into the transposed
    `data[px][py][0..2]` grid. It takes the background sample exactly where
    the traced x-component is -1.

Arithmetic is over `real`, and the C library calls are parameters:

- `sqrt` is a function parameter. The ghost predicate `IsSqrt` states what
  is assumed of it: non-negative, and squaring back to its argument.
- `INFINITY` is the parameter `infinity`.
- The camera's `tan(M_PI/2 * fov / 180)` is the parameter `angle`.

`Vec3` is a datatype. The source passes it by const reference, and every
in-place update (`normalize`, `+=`, `*=`) is on a local variable (`nhit`,
`lightDirection`, `refldir`, `eyeDir`, `surfaceColor`) whose returned
reference is never used. So these operators are functions, and the caller
assigns the result back to the variable the operator was called on. The
out-pointers of `intersect` are `Cell` objects: the nearest-hit loop and the
shadow loop allocate two per test and pass them to `IntersectInto`, as the
source passes `&t0` and `&t1`. The loops of `trace` and `render` are methods
with loop invariants. Each method is proved against a function that states
what the loop computes:

| method | specification function |
|---|---|
| `FindNearest` | `Scan` / `Nearest` |
| `Transmission` | `Shadowed` |
| `Illuminate` | `Illumination` |
| `Trace` | `Traced` (ghost) |
| `FillImage` | `PixelColor` (ghost) |
| `Composite` | `Composited` |

Lemmas then state the promised properties of those functions.

In four places one might expect the tracer to behave differently from what
the code does. The model follows the code:

- **Primary scan.** One might expect the primary scan to cover the whole
  scene, lights included. The code's loop bound `size - NLIGHTS * (1 - light)`
  stops before the trailing lights in primary mode (`Nearest`,
  `FindNearest`).
- **Probe mode shading.** One might expect probe mode to skip direct
  illumination. The code runs the whole illumination loop in probe mode too,
  and then discards the result by returning `eyeDir` (`Trace`).
- **Specular on the sentinel.** One might expect the specular term to be
  folded in only when the probe hits a light. The code tests only for a
  nonzero vector, so the `(-1, -1, -1)` sentinel of a missed probe fires the
  specular term as well (`SentinelFiresSpecular`).
- **Specular always fires.** One might expect a pixel whose lights are all
  blocked to show only the diffuse colour, e.g. (0.16, 0.28, 0.36) for the
  golf ball of the default scene. The probe's answer is a unit vector or the
  sentinel, never zero, so the code always adds `-SPEC / r1^3` on top of
  what the light loop accumulates (`ProbeAnswerNonzero`,
  `SpecularAlwaysFires`).

## Model

| member | source | states |
|---|---|---|
| Vectors.ZeroIsIdentity | p4.h:8 | `Vec3()` is the zero vector: the identity of `+` and `-`, with `length2() == 0`. |
| Vectors.Vec3.Scale | p4.h:20 | Multiplying by a scalar `f` equals the component-wise product with `Vec3(f)` (p4.h:9), the vector with all three components `f`. |
| Vectors.MulSumsToDot | p4.h:21-22 | The components of the component-wise product `v * w` sum to `v.dot(w)`. |
| Vectors.MulCommutes | p4.h:21 | The component-wise product (which `*=` at p4.h:26 also stores) is commutative. |
| Vectors.DotSymmetric | p4.h:22 | `dot` is symmetric. |
| Vectors.SubZeroIffEqual | p4.h:23 | `v - w` is the zero vector exactly when `v == w`. |
| Vectors.AddSubCancel | p4.h:23-25 | `+` (which `+=` also stores) and `-` undo each other. |
| Vectors.Vec3.Neg | p4.h:27 | Unary minus gives the additive inverse (`-v + v` is the zero vector) and keeps `length2()`. |
| Vectors.NegNeg | p4.h:27 | `-(-v) == v`. |
| Vectors.DotNeg | p4.h:22-27 | `v.dot(-w) == -(v.dot(w))`. |
| Vectors.Vec3.Length2 | p4.h:28 | `length2()` equals `v.dot(v)` and is never negative. |
| Vectors.Vec3.Length | p4.h:29 | `length()` is non-negative and its square is `length2()`. |
| Vectors.Vec3.Normalize | p4.h:11-19 | A vector with `length2() == 0` is left unchanged. Otherwise all three components are multiplied by the same factor `1 / length()`, and the result has `length2() == 1`. |
| Vectors.NormalizeHasUnitLength | p4.h:13-16 | For positive `length2`, `sqrt(length2)` is positive, and scaling by its inverse gives squared length 1. |
| Spheres.NewSphere | p4.h:45-49 | The constructor caches `radius2 == r * r` and stores every other argument unchanged. `refl`, `transp` and `ec` default to zero. |
| Spheres.Sphere.Intersect | p4.h:51-65 | The test misses whenever `tca < 0`, and whenever `d2 > radius2`. It hits exactly when neither holds. A hit gives `t0 <= t1` with `t0 + t1 == 2 * tca`. |
| Spheres.Sphere.IntersectInto | p4.h:51-65 | Returns whether the test hits. `t0` and `t1` are written with the hit's parameters only on a hit with both pointers non-null; otherwise no target changes. |
| Spheres.HitIsOnSurface | p4.h:53-61 | For a unit direction, both reported parameters give points at squared distance `radius2` from the centre. |
| Spheres.HitEndOnSurface | p4.h:58-61 | Either end `tca -/+ thc` of the chord lies on the sphere, for a unit direction. |
| Spheres.AimedAtCentreFromOutside | p4.h:53-61 | A ray aimed at the centre (`d2 == 0`) from outside a sphere of positive radius hits at two distinct positive parameters. |
| Spheres.AimedAtCentre | p4.h:53-61 | The same for a ray whose direction is the normalized vector from its origin to the centre: it hits at `0 < t0 < t1`. |
| Tracer.Scan | p4.cpp:44-57 | The scan's choice, when there is one, is an index it visited. |
| Tracer.ScanIsNearest | p4.cpp:39-57 | The scan picks the visited sphere with the least effective parameter, where `t1` replaces a negative `t0`. Ties keep the lowest index. Only values below `infinity` are accepted, and with no such hit the result is `None` with `near == infinity`. |
| Tracer.NearestIsUnique | p4.cpp:50-55 | The nearest-hit property has at most one solution, so it fully determines the scan's result. |
| Tracer.TestSphere | p4.cpp:45-51 | One test through the out-pointers reports the hit, and on a hit yields the effective parameter: `t0`, or `t1` when `t0 < 0`. |
| Tracer.FindNearest | p4.cpp:39-57 | The loop computes `Nearest`. With `light` off it visits exactly `0 .. size - NLIGHTS - 1`, in order; with `light` on it visits exactly `size - NLIGHTS .. size - 1`, in order. |
| Tracer.FaceForward | p4.cpp:66 | After the flip, `eyeDir . nhit <= 0`. The normal is kept or negated, and it is kept when it already faces the ray. |
| Tracer.HitSurfel | p4.cpp:63-66 | The shading normal faces against the primary ray. It has unit length when the hit point is off the sphere's centre, and it is the zero vector that `normalize` leaves unchanged when the hit point is the centre. |
| Tracer.Transmission | p4.cpp:72-84 | `transmission` is all zeros or all ones. It is zero exactly when some sphere `j != i` intersects the shadow ray. |
| Tracer.LightTerm | p4.cpp:72-87 | A shadowed light adds only the diffuse part `surfaceColor * DIFF`. An unshadowed light adds `surfaceColor * (AMB * max(0, nhit . lightDirection) * emission + DIFF)` per component. |
| Tracer.Lit | p4.cpp:86-87 | The accumulated term with a binary transmission: `surface * DIFF` for transmission 0, `surface * (AMB * cos * emission + DIFF)` for transmission 1. |
| Tracer.Illuminate | p4.cpp:69-89 | The light loop leaves the accumulated `Illumination`: each emissive sphere's term added in index order. |
| Tracer.NoEmitterNoLight | p4.cpp:62-89 | With no emissive sphere, the colour before the specular term is zero. |
| Tracer.AllShadowedIsDiffuse | p4.cpp:69-89 | When every light is shadowed, the colour is `surfaceColor * DIFF` times the number of emissive spheres. |
| Tracer.BlockedGolfBall | p4.cpp:69-89 | For the golf ball of the default scene (colour (0.4, 0.7, 0.9), p4.cpp:188) with its one light blocked, the light loop accumulates (0.16, 0.28, 0.36). |
| Tracer.MirrorFlipsNormalComponent | p4.cpp:92 | Before normalization, the reflected direction's component along a unit normal is the negation of the incoming one. |
| Tracer.MirrorKeepsLength | p4.cpp:92 | Before normalization, reflecting about a unit normal keeps the squared length. |
| Tracer.ReflectIsUnit | p4.cpp:92-93 | `refldir` has unit length whenever `eyeDir` has positive length and `nhit` has unit length or is the zero vector. |
| Tracer.MirrorAboutZero | p4.cpp:92 | Mirroring about the zero normal leaves the direction unchanged. |
| Vectors.ZeroLengthIsZero | p4.h:28 | `length2()` is zero exactly for the zero vector. |
| Tracer.Specular | p4.cpp:96-101 | A zero probe result leaves the colour unchanged. Any nonzero result with `r1 = r . eyeDir != 0` adds `-SPEC / r1^3` to every component. |
| Tracer.Trace | p4.cpp:36-108 | The method computes `Traced`. A miss returns the sentinel, and a probe-mode hit returns `eyeDir`. Probe mode never recurses (depth 0), and a primary-mode hit recurses exactly once (depth 1). |
| Tracer.PrimaryHitOnSurface | p4.cpp:50-63 | For a unit direction, the primary hit point `eyeOrigin + eyeDir * near` lies on the surface of the chosen sphere, because `near` is its `t0` or `t1`. |
| Tracer.ProbeAnswer | p4.cpp:60-105 | A probe answers with its own direction on a hit and with the sentinel on a miss. |
| Tracer.PrimaryColor | p4.cpp:92-107 | A primary-mode hit returns the shaded colour with the specular fold-in. The probe's answer is either the reflected direction (probe hit a light) or the sentinel. |
| Tracer.ProbeAnswerNonzero | p4.cpp:92-97 | For every primary ray of positive length that hits a sphere, `refldir` has unit length and the probe's answer is never the zero vector. |
| Tracer.SpecularAlwaysFires | p4.cpp:92-101 | For every primary ray of positive length that hits a sphere, whenever `r1 = r . eyeDir != 0`, the pixel is the accumulated colour plus `-SPEC / r1^3` on every component. |
| Tracer.SentinelFiresSpecular | p4.cpp:96-101 | When the probe misses, the miss sentinel still fires the specular term: every component gains `-SPEC / r1^3` with `r1 = -(eyeDir.x + eyeDir.y + eyeDir.z)`. |
| Tracer.SentinelSpecular | p4.cpp:97-100 | Folding in the sentinel adds `-SPEC / r1^3` with `r1 = (-1, -1, -1) . eyeDir`. |
| Render.PrimaryDirIsUnit | p4.cpp:128-132 | Every primary direction has unit length and a negative z-component: the eye looks down the negative z axis. |
| Render.ScreenBounds | p4.cpp:115-125 | For a positive `angle`, every column centre lies strictly inside `(-xPerY * angle, xPerY * angle)` and every row centre strictly inside `(-angle, angle)`. |
| Render.ScreenCentred | p4.cpp:124-125 | Column `WIDTH - 1 - x` gets the opposite of column `x`'s coordinate, and row `HEIGHT - 1 - y` the opposite of row `y`'s. |
| Render.CellOfPixel | p4.cpp:122-132 | Cell `x + WIDTH * y` is inside the buffer, and it belongs to pixel (`x`, `y`) under row-major order. |
| Render.ExpectedImage | p4.cpp:113-134 | A buffer exists whose cell `x + WIDTH * y` holds the traced colour of pixel (`x`, `y`) for every pixel. |
| Render.FillImage | p4.cpp:113-134 | The first pass writes each of the `WIDTH * HEIGHT` cells exactly once, in increasing order. Cell `x + WIDTH * y` ends up holding the primary-mode trace of pixel (`x`, `y`). |
| Render.TracePixel | p4.cpp:124-132 | One pixel's colour is the primary-mode trace from the origin along its normalized direction, times `Vec3(1)`. |
| Render.BackgroundSample | p4.cpp:142-145 | Multiplying the background sample back by 255 gives the three stored values, and stored values in `0 .. 255` give components in `[0, 1]`. |
| Render.ThirdOfTriple | p4.cpp:141 | With `y == 3 * py`, `WIDTH * y / 3` is exactly `WIDTH * py`. |
| Render.CompositeColumn | p4.cpp:137-151 | For one `x`, `data[x/3][py]` gets the background sample where image cell `x/3 + WIDTH*py` has x-component -1, and that cell's colour otherwise. The sample is read at `x * sizeX + y`, divided by 255. No other column changes. |
| Render.Composite | p4.cpp:136-152 | Every `data[px][py]` is the background sample exactly when `image[px + WIDTH*py].x == -1`. Otherwise it is that cell's x, y and z. |
| Render.Render | p4.cpp:111-154 | Every displayed pixel `data[px][py]` is the composited primary-mode trace of pixel (`px`, `py`). |
| Render.MissShowsBackground | p4.cpp:141-145 | A pixel whose primary ray hits nothing shows its background sample. |

## Left out

- Floating point: all arithmetic is over `real`, so IEEE rounding, overflow
  and `float` conversions are not modelled.
- `sqrt` and `tan` are not defined. `sqrt` is a parameter constrained by
  `IsSqrt`, and the camera `angle` is a parameter.
- The platform-dependent `INFINITY` is a parameter.
- Vectors.Vec3.Normalize: modelled as a function whose result the caller
  stores, not as an update in place. No aliasing is lost: every reference
  the source passes a `Vec3` by is const, the `Vec3&` that `normalize`,
  `+=` and `*=` return is never used, and every update is on a local.
- The `+=` and `*=` operators have no members of their own; they are `Add`
  and `Mul` with the result assigned back.
- Tracer.Specular: when `r1 == 0` the source divides by zero and `float`
  yields an infinity. The model leaves the colour unchanged in that
  case, and its contract says nothing about it.
- `light` is a `bool`. The source's `int` is only ever passed 0 or 1. Any
  other value changes the loop bound and the jump: a value of 2 or more, or
  a negative value large enough to make the unsigned bound wrap, indexes
  past the scene.
- The shadow loop's `float t0, t1` are uninitialized in the source and never
  read. The model starts their cells at 0.
- `NLIGHTS <= |spheres|` is a precondition of the tracer. With fewer spheres,
  primary mode's unsigned loop bound `size - NLIGHTS` wraps around and the
  loop indexes out of range. Probe mode's bound is `size` and does not wrap;
  on an empty scene its loop does not run and it returns the sentinel.
  Probe mode is only reached after a primary hit, where
  `|spheres| >= NLIGHTS + 1`, so the precondition holds at every call
  inside `trace`.
- The background image loader and `Image` type of `bmp.h` are not part of
  this model. `bg` is a `sizeX` with a sequence of integer sample values. Its
  reads are not bounds-checked in the source, so readability is a
  precondition, only for the pixels that read the background.
- `display`, `main`, the GLUT window and event loop, and the empty `mem` /
  `man` functions are left out as graphics I/O and process setup.
- Heap ownership (`new[]` / `delete[]` of the image buffer, `malloc` /
  `free` of `bg`) is left out. The buffer is a fresh array.
- Stream printing of `Vec3` (`operator <<`) is left out.
- The `transparency` and `reflection` fields are stored but never read by
  the core, so nothing is stated about them beyond construction.
- `Vec3` constructors are the datatype constructor plus `Zero` and `Splat`.
