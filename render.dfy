/** `render` of p4.cpp: one primary ray per pixel into a row-major buffer of
    `WIDTH * HEIGHT` colours, then a compositing pass into the
    `data[WIDTH][HEIGHT][3]` grid the display draws, taking the background
    image wherever the traced colour's x-component is the sentinel's -1. */
module Render {
  import opened Vectors
  import opened Spheres
  import opened Tracer

  const WIDTH: nat := 500
  const HEIGHT: nat := 500

  /** The loaded background image: its `sizeX` and the values its `data`
      elements read as. */
  datatype Image = Image(sizeX: nat, data: seq<int>)

  /** The direction of the primary ray through pixel column `x`, row `y`,
      with `angle = tan(pi / 2 * fov / 180)` given: normalized, then
      multiplied component-wise by `Vec3(1)`. */
  function PrimaryDir(x: nat, y: nat, angle: real, sqrt: real -> real): Vec3
    requires IsSqrt(sqrt)
  {
    Vec3(ScreenX(x, angle), ScreenY(y, angle), -1.0).Normalize(sqrt).Mul(Splat(1.0))
  }

  /** `1 / WIDTH`, `1 / HEIGHT` and the aspect ratio `WIDTH / HEIGHT`. */
  const INV_W: real := 1.0 / WIDTH as real
  const INV_H: real := 1.0 / HEIGHT as real
  const X_PER_Y: real := WIDTH as real / HEIGHT as real

  /** The image-plane x-coordinate of the centre of column `x`, from
      `-angle * WIDTH / HEIGHT` at the left edge to `+` at the right. */
  function ScreenX(x: nat, angle: real): real {
    X_PER_Y * angle * (2.0 * ((x as real + 0.5) * INV_W) - 1.0)
  }

  /** The image-plane y-coordinate of the centre of row `y`, from `+angle`
      at the top to `-angle` at the bottom. */
  function ScreenY(y: nat, angle: real): real {
    angle * (1.0 - 2.0 * ((y as real + 0.5) * INV_H))
  }

  /** Every primary ray has unit length and looks down the negative z axis. */
  lemma PrimaryDirIsUnit(x: nat, y: nat, angle: real, sqrt: real -> real)
    requires IsSqrt(sqrt)
    ensures PrimaryDir(x, y, angle, sqrt).Length2() == 1.0
    ensures PrimaryDir(x, y, angle, sqrt).z < 0.0
  {
    var v := Vec3(ScreenX(x, angle), ScreenY(y, angle), -1.0);
    var flat := Vec3(v.x, v.y, 0.0);
    assert 0.0 <= flat.Length2();
    assert v.Length2() == flat.Length2() + 1.0;
    NormalizeHasUnitLength(v, sqrt);
    var u := v.Normalize(sqrt);
    assert u.Mul(Splat(1.0)) == u;
    var inv := 1.0 / sqrt(v.Length2());
    assert 0.0 < inv;
    assert u.z == -1.0 * inv;
  }

  /** For a positive `angle`, the centre of every column lies strictly
      inside `(-angle * WIDTH / HEIGHT, angle * WIDTH / HEIGHT)` and the
      centre of every row strictly inside `(-angle, angle)`. */
  lemma ScreenBounds(x: nat, y: nat, angle: real)
    requires x < WIDTH && y < HEIGHT && 0.0 < angle
    ensures -(X_PER_Y * angle) < ScreenX(x, angle) < X_PER_Y * angle
    ensures -angle < ScreenY(y, angle) < angle
  {
    var fx := 2.0 * ((x as real + 0.5) * INV_W) - 1.0;
    var fy := 1.0 - 2.0 * ((y as real + 0.5) * INV_H);
    assert X_PER_Y == 1.0;
    Inside(angle, fx);
    Inside(angle, fy);
  }

  lemma Inside(a: real, f: real)
    requires 0.0 < a && -1.0 < f < 1.0
    ensures -a < a * f < a
  {
  }

  /** The screen is centred: mirrored columns (and rows) get opposite
      coordinates. */
  lemma ScreenCentred(x: nat, y: nat, angle: real)
    requires x < WIDTH && y < HEIGHT
    ensures ScreenX(WIDTH - 1 - x, angle) == -ScreenX(x, angle)
    ensures ScreenY(HEIGHT - 1 - y, angle) == -ScreenY(y, angle)
  {
    var fx := 2.0 * ((x as real + 0.5) * INV_W) - 1.0;
    var fy := 1.0 - 2.0 * ((y as real + 0.5) * INV_H);
    assert 2.0 * (((WIDTH - 1 - x) as real + 0.5) * INV_W) - 1.0 == -fx;
    assert 1.0 - 2.0 * (((HEIGHT - 1 - y) as real + 0.5) * INV_H) == -fy;
    Opposite(X_PER_Y * angle, fx);
    Opposite(angle, fy);
  }

  lemma Opposite(a: real, f: real)
    ensures a * -f == -(a * f)
  {
  }

  /** What the tracer answers for pixel (`x`, `y`): a primary-mode trace
      from the origin. */
  ghost function PixelColor(x: nat, y: nat, spheres: seq<Sphere>, angle: real,
                            sqrt: real -> real, infinity: real): Vec3
    requires NLIGHTS <= |spheres| && IsSqrt(sqrt)
  {
    Traced(Zero(), PrimaryDir(x, y, angle, sqrt), spheres, false, sqrt, infinity)
  }

  /** Cell `x + WIDTH * y` is inside the buffer and belongs to pixel (`x`, `y`). */
  lemma CellOfPixel(x: nat, y: nat)
    requires x < WIDTH && y < HEIGHT
    ensures x + WIDTH * y < WIDTH * HEIGHT
    ensures (x + WIDTH * y) % WIDTH == x && (x + WIDTH * y) / WIDTH == y
  {
    var k := x + WIDTH * y;
    assert k == x + 500 * y;
    assert k % 500 == x && k / 500 == y;
  }

  /** `e` is the buffer the first pass of `render` should leave: cell
      `x + WIDTH * y` holds the colour of pixel (`x`, `y`). */
  ghost predicate IsRendering(e: seq<Vec3>, spheres: seq<Sphere>, angle: real, sqrt: real -> real,
                              infinity: real)
    requires NLIGHTS <= |spheres| && IsSqrt(sqrt)
  {
    |e| == WIDTH * HEIGHT &&
    forall x, y {:trigger PixelColor(x, y, spheres, angle, sqrt, infinity)} ::
      0 <= x < WIDTH && 0 <= y < HEIGHT ==>
        e[x + WIDTH * y] == PixelColor(x, y, spheres, angle, sqrt, infinity)
  }

  /** Such a buffer exists: cell `k` takes pixel (`k % WIDTH`, `k / WIDTH`). */
  lemma ExpectedImage(spheres: seq<Sphere>, angle: real, sqrt: real -> real, infinity: real)
    returns (e: seq<Vec3>)
    requires NLIGHTS <= |spheres| && IsSqrt(sqrt)
    ensures IsRendering(e, spheres, angle, sqrt, infinity)
  {
    var f := (x: nat, y: nat) =>
      if NLIGHTS <= |spheres| && IsSqrt(sqrt) then PixelColor(x, y, spheres, angle, sqrt, infinity)
      else Zero();
    e := RowMajor(f);
    forall x, y | 0 <= x < WIDTH && 0 <= y < HEIGHT
      ensures e[x + WIDTH * y] == PixelColor(x, y, spheres, angle, sqrt, infinity)
    {
      assert e[x + WIDTH * y] == f(x, y);
    }
  }

  /** The row-major table of `f` over the pixels. */
  lemma RowMajor(f: (nat, nat) -> Vec3) returns (e: seq<Vec3>)
    ensures |e| == WIDTH * HEIGHT
    ensures forall x, y :: 0 <= x < WIDTH && 0 <= y < HEIGHT ==> e[x + WIDTH * y] == f(x, y)
  {
    e := seq(WIDTH * HEIGHT, k requires 0 <= k => f(k % WIDTH, k / WIDTH));
    forall x, y | 0 <= x < WIDTH && 0 <= y < HEIGHT
      ensures e[x + WIDTH * y] == f(x, y)
    {
      CellOfPixel(x, y);
    }
  }

  /** The first loop of `render`: `pixel` advances once per pixel, rows in
      the outer loop, so cell `x + WIDTH * y` gets pixel (`x`, `y`).
      `writes` records the cell index of every write, in order: each of the
      `WIDTH * HEIGHT` cells is written exactly once, in increasing order. */
  method FillImage(spheres: seq<Sphere>, angle: real, sqrt: real -> real, infinity: real)
    returns (image: array<Vec3>, ghost writes: seq<nat>)
    requires NLIGHTS <= |spheres| && IsSqrt(sqrt)
    ensures fresh(image) && image.Length == WIDTH * HEIGHT
    ensures writes == Range(0, WIDTH * HEIGHT)
    ensures forall x, y :: 0 <= x < WIDTH && 0 <= y < HEIGHT ==>
              image[x + WIDTH * y] == PixelColor(x, y, spheres, angle, sqrt, infinity)
  {
    ghost var expected := ExpectedImage(spheres, angle, sqrt, infinity);
    image := new Vec3[WIDTH * HEIGHT];
    var pixel := 0;
    writes := [];
    var y := 0;
    while y < HEIGHT
      invariant 0 <= y <= HEIGHT
      invariant pixel == WIDTH * y <= image.Length
      invariant writes == Range(0, pixel)
      invariant image[..pixel] == expected[..pixel]
    {
      var x := 0;
      while x < WIDTH
        invariant 0 <= x <= WIDTH
        invariant pixel == x + WIDTH * y <= image.Length
        invariant writes == Range(0, pixel)
        invariant image[..pixel] == expected[..pixel]
      {
        CellOfPixel(x, y);
        var color := TracePixel(x, y, spheres, angle, sqrt, infinity, expected);
        image[pixel] := color;
        assert image[..pixel + 1] == image[..pixel] + [color];
        assert expected[..pixel + 1] == expected[..pixel] + [expected[pixel]];
        writes := writes + [pixel];
        assert Range(0, pixel + 1) == Range(0, pixel) + [pixel];
        x := x + 1;
        pixel := pixel + 1;
      }
      y := y + 1;
    }
    assert image[..] == expected;
  }

  /** The body of the inner loop: the primary ray through the centre of
      pixel (`x`, `y`), normalized, traced from the eye at the origin. */
  method TracePixel(x: nat, y: nat, spheres: seq<Sphere>, angle: real, sqrt: real -> real, infinity: real,
                    ghost expected: seq<Vec3>)
    returns (color: Vec3)
    requires NLIGHTS <= |spheres| && IsSqrt(sqrt)
    requires x < WIDTH && y < HEIGHT && IsRendering(expected, spheres, angle, sqrt, infinity)
    ensures x + WIDTH * y < |expected| && color == expected[x + WIDTH * y]
  {
    CellOfPixel(x, y);
    var eyeDir := Vec3(ScreenX(x, angle), ScreenY(y, angle), -1.0);
    var eyeOrigin := Vec3(0.0, 0.0, 0.0);
    eyeDir := eyeDir.Normalize(sqrt);
    assert eyeDir.Mul(Splat(1.0)) == PrimaryDir(x, y, angle, sqrt);
    ghost var depth;
    color, depth := Trace(eyeOrigin, eyeDir.Mul(Splat(1.0)), spheres, false, sqrt, infinity);
    assert color == PixelColor(x, y, spheres, angle, sqrt, infinity);
  }

  /** Where the background sample for pixel (`px`, `py`) starts:
      `x * sizeX + y` with `x = 3 * px` and `y = 3 * py`. */
  function BgIndex(bg: Image, px: nat, py: nat): nat {
    3 * px * bg.sizeX + 3 * py
  }

  /** The three reads of the background sample are inside the image. */
  predicate Readable(bg: Image, px: nat, py: nat) {
    BgIndex(bg, px, py) + 2 < |bg.data|
  }

  /** The background sample for pixel (`px`, `py`), each value over 255. */
  function BackgroundAt(bg: Image, px: nat, py: nat): Vec3
    requires Readable(bg, px, py)
  {
    var i := BgIndex(bg, px, py);
    Vec3(bg.data[i] as real / 255.0, bg.data[i + 1] as real / 255.0, bg.data[i + 2] as real / 255.0)
  }

  /** Dividing by 255 loses nothing: multiplying the sample back gives the
      stored values, and stored values in `0 .. 255` give components in
      `[0, 1]`. */
  lemma BackgroundSample(bg: Image, px: nat, py: nat)
    requires Readable(bg, px, py)
    ensures var i := BgIndex(bg, px, py);
            BackgroundAt(bg, px, py).Scale(255.0)
              == Vec3(bg.data[i] as real, bg.data[i + 1] as real, bg.data[i + 2] as real)
    ensures var i := BgIndex(bg, px, py);
            var c := BackgroundAt(bg, px, py);
            (forall k :: i <= k <= i + 2 ==> 0 <= bg.data[k] <= 255) ==>
              0.0 <= c.x <= 1.0 && 0.0 <= c.y <= 1.0 && 0.0 <= c.z <= 1.0
  {
  }

  /** What the display shows for a traced colour: the background sample
      exactly when the x-component is -1 (the other two are not looked at),
      otherwise the traced colour itself. */
  function Composited(cell: Vec3, bg: Image, px: nat, py: nat): Vec3
    requires cell.x == -1.0 ==> Readable(bg, px, py)
  {
    if cell.x == -1.0 then BackgroundAt(bg, px, py) else cell
  }

  /** The three floats `data[px][py][0..2]`. */
  function Pixel(data: array3<real>, px: nat, py: nat): Vec3
    requires px < data.Length0 && py < data.Length1 && 3 <= data.Length2
    reads data
  {
    Vec3(data[px, py, 0], data[px, py, 1], data[px, py, 2])
  }

  predicate IsGrid(data: array3<real>) {
    data.Length0 == WIDTH && data.Length1 == HEIGHT && data.Length2 == 3
  }

  /** The second loop of `render`: `x` steps by 3 over `0 .. 3 * WIDTH`
      and the inner loop fills column `x / 3` of the transposed grid. The
      background is read only for cells whose x-component is -1, so only
      those need to be readable. */
  method Composite(image: array<Vec3>, bg: Image, data: array3<real>)
    requires image.Length == WIDTH * HEIGHT && IsGrid(data)
    requires forall px, py :: 0 <= px < WIDTH && 0 <= py < HEIGHT && image[px + WIDTH * py].x == -1.0 ==>
               Readable(bg, px, py)
    modifies data
    ensures forall px, py :: 0 <= px < WIDTH && 0 <= py < HEIGHT ==>
              Pixel(data, px, py) == Composited(image[px + WIDTH * py], bg, px, py)
  {
    var x := 0;
    ghost var px := 0;
    while x < WIDTH * 3
      invariant 0 <= px <= WIDTH && x == 3 * px
      invariant forall qx, qy :: 0 <= qx < px && 0 <= qy < HEIGHT ==>
                  Pixel(data, qx, qy) == Composited(image[qx + WIDTH * qy], bg, qx, qy)
    {
      assert x / 3 == px;
      CompositeColumn(image, bg, data, x);
      x := x + 3;
      px := px + 1;
    }
  }

  /** The inner loop of the second pass: `y` steps by 3 over
      `0 .. 3 * HEIGHT`, so pixel (`x / 3`, `y / 3`) reads image cell
      `x / 3 + WIDTH * y / 3` and writes `data[x / 3][y / 3]`; every other
      column is left as it was. */
  method CompositeColumn(image: array<Vec3>, bg: Image, data: array3<real>, x: nat)
    requires image.Length == WIDTH * HEIGHT && IsGrid(data) && x < WIDTH * 3 && x % 3 == 0
    requires forall py :: 0 <= py < HEIGHT && image[x / 3 + WIDTH * py].x == -1.0 ==>
               Readable(bg, x / 3, py)
    modifies data
    ensures forall qy :: 0 <= qy < HEIGHT ==>
              Pixel(data, x / 3, qy) == Composited(image[x / 3 + WIDTH * qy], bg, x / 3, qy)
    ensures forall qx, qy :: 0 <= qx < WIDTH && 0 <= qy < HEIGHT && qx != x / 3 ==>
              Pixel(data, qx, qy) == old(Pixel(data, qx, qy))
  {
    ghost var px := x / 3;
    var y := 0;
    ghost var py := 0;
    while y < HEIGHT * 3
      invariant 0 <= py <= HEIGHT && y == 3 * py
      invariant forall qy :: 0 <= qy < py ==>
                  Pixel(data, px, qy) == Composited(image[px + WIDTH * qy], bg, px, qy)
      invariant forall qx, qy :: 0 <= qx < WIDTH && 0 <= qy < HEIGHT && qx != px ==>
                  Pixel(data, qx, qy) == old(Pixel(data, qx, qy))
    {
      assert y / 3 == py;
      var cell := x / 3 + WIDTH * y / 3;
      ThirdOfTriple(WIDTH, py);
      assert cell == px + WIDTH * py;
      CellOfPixel(px, py);
      label before:
      if image[cell].x == -1.0 {
        assert Readable(bg, px, py);
        var i := x * bg.sizeX + y;
        assert i == BgIndex(bg, px, py);
        data[x / 3, y / 3, 0] := bg.data[i] as real / 255.0;
        data[x / 3, y / 3, 1] := bg.data[i + 1] as real / 255.0;
        data[x / 3, y / 3, 2] := bg.data[i + 2] as real / 255.0;
      } else {
        data[x / 3, y / 3, 0] := image[cell].x;
        data[x / 3, y / 3, 1] := image[cell].y;
        data[x / 3, y / 3, 2] := image[cell].z;
      }
      assert Pixel(data, px, py) == Composited(image[px + WIDTH * py], bg, px, py);
      assert forall qx, qy :: 0 <= qx < WIDTH && 0 <= qy < HEIGHT && (qx != px || qy != py) ==>
               Pixel(data, qx, qy) == old@before(Pixel(data, qx, qy));
      y := y + 3;
      py := py + 1;
    }
  }

  lemma ThirdOfTriple(w: nat, p: nat)
    ensures w * (3 * p) / 3 == w * p
  {
    assert w * (3 * p) == 3 * (w * p);
  }

  /** `render`: trace every pixel, then composite. Only pixels whose traced
      x-component is -1 read the background, so only those must be
      readable. */
  method Render(spheres: seq<Sphere>, bg: Image, angle: real, sqrt: real -> real, infinity: real,
                data: array3<real>)
    requires NLIGHTS <= |spheres| && IsSqrt(sqrt) && IsGrid(data)
    requires forall px, py ::
               0 <= px < WIDTH && 0 <= py < HEIGHT && PixelColor(px, py, spheres, angle, sqrt, infinity).x == -1.0
               ==> Readable(bg, px, py)
    modifies data
    ensures forall px, py :: 0 <= px < WIDTH && 0 <= py < HEIGHT ==>
              Pixel(data, px, py) == Composited(PixelColor(px, py, spheres, angle, sqrt, infinity), bg, px, py)
  {
    var image, _ := FillImage(spheres, angle, sqrt, infinity);
    Composite(image, bg, data);
  }

  /** A pixel whose primary ray hits nothing shows the background sample,
      not a computed colour. */
  lemma MissShowsBackground(px: nat, py: nat, spheres: seq<Sphere>, bg: Image, angle: real,
                            sqrt: real -> real, infinity: real)
    requires NLIGHTS <= |spheres| && IsSqrt(sqrt) && Readable(bg, px, py)
    requires Nearest(spheres, false, Zero(), PrimaryDir(px, py, angle, sqrt), sqrt, infinity).sphere.None?
    ensures Composited(PixelColor(px, py, spheres, angle, sqrt, infinity), bg, px, py) == BackgroundAt(bg, px, py)
  {
  }
}
