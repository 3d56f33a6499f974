/** `trace` of p4.cpp: the two-mode tracer. In primary mode it finds the
    nearest sphere among all but the trailing `NLIGHTS` entries, shades it
    with one hard-shadow test per emissive sphere, and folds in a specular
    term from one probe call; in probe mode it scans only the trailing lights
    and answers with the ray direction itself. A miss answers with the
    sentinel `(-1, -1, -1)`. */
module Tracer {
  import opened Vectors
  import opened Spheres

  datatype Option<T> = None | Some(value: T)

  /** The number of trailing scene entries that are lights. */
  const NLIGHTS: nat := 1
  /** Shading intensities. */
  const AMB: real := 0.6
  const SPEC: real := 0.1
  const DIFF: real := 0.4

  /** `Vec3<float>(-1)`: "nothing was hit, draw the background". */
  function Sentinel(): Vec3 {
    Splat(-1.0)
  }

  /** The indices `lo, lo + 1, ..., hi - 1`, in that order. */
  function Range(lo: nat, hi: nat): seq<nat>
    requires lo <= hi
  {
    seq(hi - lo, k requires 0 <= k < hi - lo => lo + k)
  }

  /*** Nearest-hit scan ***/

  /** The first index the nearest-hit scan visits: `firstLightPos` in probe
      mode, 0 otherwise. */
  function ScanStart(n: nat, light: bool): nat
    requires NLIGHTS <= n
  {
    if light then n - NLIGHTS else 0
  }

  /** One past the last index the scan visits: the loop bound
      `size - NLIGHTS * (1 - light)`. */
  function ScanEnd(n: nat, light: bool): nat
    requires NLIGHTS <= n
  {
    if light then n else n - NLIGHTS
  }

  /** The scan's state: the nearest parameter so far (`near`) and the index of
      the sphere it belongs to (`sphere`, `NULL` being `None`). */
  datatype Choice = Choice(near: real, sphere: Option<nat>)

  function HitAt(spheres: seq<Sphere>, j: nat, o: Vec3, d: Vec3, sqrt: real -> real): Hit
    requires j < |spheres|
  {
    spheres[j].Intersect(o, d, sqrt)
  }

  /** The parameter a hit competes with: `t0`, or `t1` when `t0 < 0`. */
  function Effective(h: Hit): real
    requires h.Hit?
  {
    if h.t0 < 0.0 then h.t1 else h.t0
  }

  /** One iteration of the scan at index `k`: a hit whose effective
      parameter is strictly below `near` takes over. */
  function Step(c: Choice, spheres: seq<Sphere>, k: nat, o: Vec3, d: Vec3, sqrt: real -> real): Choice
    requires k < |spheres|
  {
    var h := HitAt(spheres, k, o, d, sqrt);
    if h.Hit? && Effective(h) < c.near then Choice(Effective(h), Some(k)) else c
  }

  /** The scan over `lo .. hi - 1`, starting from `near = infinity`. */
  function Scan(spheres: seq<Sphere>, lo: nat, hi: nat, o: Vec3, d: Vec3,
                sqrt: real -> real, infinity: real): (c: Choice)
    requires lo <= hi <= |spheres|
    ensures c.sphere.Some? ==> lo <= c.sphere.value < hi
    decreases hi - lo
  {
    if hi == lo then Choice(infinity, None)
    else Step(Scan(spheres, lo, hi - 1, o, d, sqrt, infinity), spheres, hi - 1, o, d, sqrt)
  }

  /** What the scan's result means: `None` (with `near` still `infinity`)
      when no visited sphere has a hit below `infinity`; otherwise the visited
      sphere with the least effective parameter, which is below `infinity`,
      and the lowest such index when several tie. */
  ghost predicate IsNearest(spheres: seq<Sphere>, lo: nat, hi: nat, o: Vec3, d: Vec3,
                            sqrt: real -> real, infinity: real, c: Choice)
    requires lo <= hi <= |spheres|
  {
    match c.sphere
    case None =>
      c.near == infinity &&
      forall j :: lo <= j < hi && HitAt(spheres, j, o, d, sqrt).Hit? ==>
        infinity <= Effective(HitAt(spheres, j, o, d, sqrt))
    case Some(m) =>
      lo <= m < hi && HitAt(spheres, m, o, d, sqrt).Hit? &&
      c.near == Effective(HitAt(spheres, m, o, d, sqrt)) && c.near < infinity &&
      (forall j :: lo <= j < hi && HitAt(spheres, j, o, d, sqrt).Hit? ==>
        c.near <= Effective(HitAt(spheres, j, o, d, sqrt))) &&
      (forall j :: lo <= j < m && HitAt(spheres, j, o, d, sqrt).Hit? ==>
        c.near < Effective(HitAt(spheres, j, o, d, sqrt)))
  }

  /** The scan selects the argmin with strict `<` (ties keep the lowest index)
      among hits below `infinity`. */
  lemma {:induction false} ScanIsNearest(spheres: seq<Sphere>, lo: nat, hi: nat, o: Vec3, d: Vec3,
                                         sqrt: real -> real, infinity: real)
    requires lo <= hi <= |spheres|
    ensures IsNearest(spheres, lo, hi, o, d, sqrt, infinity, Scan(spheres, lo, hi, o, d, sqrt, infinity))
    decreases hi - lo
  {
    if hi > lo {
      ScanIsNearest(spheres, lo, hi - 1, o, d, sqrt, infinity);
    }
  }

  /** `IsNearest` pins the scan's result down completely. */
  lemma NearestIsUnique(spheres: seq<Sphere>, lo: nat, hi: nat, o: Vec3, d: Vec3,
                        sqrt: real -> real, infinity: real, c1: Choice, c2: Choice)
    requires lo <= hi <= |spheres|
    requires IsNearest(spheres, lo, hi, o, d, sqrt, infinity, c1)
    requires IsNearest(spheres, lo, hi, o, d, sqrt, infinity, c2)
    ensures c1 == c2
  {
    if c1.sphere.Some? {
      var m1 := c1.sphere.value;
      assert lo <= m1 < hi && HitAt(spheres, m1, o, d, sqrt).Hit?;
    }
    if c2.sphere.Some? {
      var m2 := c2.sphere.value;
      assert lo <= m2 < hi && HitAt(spheres, m2, o, d, sqrt).Hit?;
    }
  }

  /** The scan as `trace` runs it, over the indices its mode visits. */
  function Nearest(spheres: seq<Sphere>, light: bool, o: Vec3, d: Vec3,
                   sqrt: real -> real, infinity: real): Choice
    requires NLIGHTS <= |spheres|
  {
    Scan(spheres, ScanStart(|spheres|, light), ScanEnd(|spheres|, light), o, d, sqrt, infinity)
  }

  /** One test of the nearest-hit loop: `t0` and `t1` start at `infinity`,
      `intersect` writes them through its out-pointers, and on a hit a
      negative `t0` is replaced by `t1`. */
  method TestSphere(s: Sphere, o: Vec3, d: Vec3, sqrt: real -> real, infinity: real)
    returns (hit: bool, t0: real)
    ensures hit == s.Intersect(o, d, sqrt).Hit?
    ensures hit ==> t0 == Effective(s.Intersect(o, d, sqrt))
  {
    var c0 := new Cell(infinity);
    var c1 := new Cell(infinity);
    hit := s.IntersectInto(o, d, sqrt, c0, c1);
    if hit && c0.value < 0.0 {
      c0.value := c1.value;
    }
    t0 := c0.value;
  }

  /** The nearest-hit loop of `trace`, with its jump of the index from 0 to
      `firstLightPos` in probe mode. `visited` records the indices it tests, in
      order: all but the trailing lights in primary mode, only the trailing
      lights in probe mode. */
  method FindNearest(eyeOrigin: Vec3, eyeDir: Vec3, spheres: seq<Sphere>, light: bool,
                     sqrt: real -> real, infinity: real)
    returns (near: real, sphere: Option<nat>, ghost visited: seq<nat>)
    requires NLIGHTS <= |spheres|
    ensures Choice(near, sphere) == Nearest(spheres, light, eyeOrigin, eyeDir, sqrt, infinity)
    ensures light ==> visited == Range(|spheres| - NLIGHTS, |spheres|)
    ensures !light ==> visited == Range(0, |spheres| - NLIGHTS)
  {
    near := infinity;
    sphere := None;
    var firstLightPos := |spheres| - NLIGHTS;
    ghost var lo := ScanStart(|spheres|, light);
    ghost var hi := ScanEnd(|spheres|, light);
    visited := [];
    var i := 0;
    while i < |spheres| - NLIGHTS * (if light then 0 else 1)
      invariant i <= hi
      invariant light && i == 0 ==> visited == [] && near == infinity && sphere == None
      invariant !(light && i == 0) ==>
                  lo <= i && visited == Range(lo, i) &&
                  Choice(near, sphere) == Scan(spheres, lo, i, eyeOrigin, eyeDir, sqrt, infinity)
      decreases hi - i
    {
      if light && i == 0 {
        i := i + firstLightPos;
      }
      var hit, t0 := TestSphere(spheres[i], eyeOrigin, eyeDir, sqrt, infinity);
      if hit && t0 < near {
        near := t0;
        sphere := Some(i);
      }
      visited := visited + [i];
      assert Range(lo, i + 1) == Range(lo, i) + [i];
      i := i + 1;
    }
  }

  /*** Shading ***/

  /** A sphere is a light when some component of its emission is positive. */
  predicate Emissive(s: Sphere) {
    s.emissionColor.x > 0.0 || s.emissionColor.y > 0.0 || s.emissionColor.z > 0.0
  }

  /** Some sphere other than light `i` intersects the shadow ray. */
  predicate Shadowed(spheres: seq<Sphere>, i: nat, origin: Vec3, dir: Vec3, sqrt: real -> real)
    requires i < |spheres|
  {
    exists j :: 0 <= j < |spheres| && j != i && HitAt(spheres, j, origin, dir, sqrt).Hit?
  }

  /** `std::max(a, b)`: `b` when `a < b`, otherwise `a`. */
  function Max(a: real, b: real): real {
    if a < b then b else a
  }

  /** The normal, flipped to face against the ray when it faces along it. */
  function FaceForward(dir: Vec3, n: Vec3): (r: Vec3)
    ensures dir.Dot(r) <= 0.0
    ensures r == n || r == n.Neg()
    ensures dir.Dot(n) <= 0.0 ==> r == n
  {
    if dir.Dot(n) > 0.0 then
      DotNeg(dir, n);
      n.Neg()
    else n
  }

  /** The shadow loop for light `i`: `transmission` is all ones, or all
      zeros as soon as another sphere blocks the ray toward the light. */
  method Transmission(spheres: seq<Sphere>, i: nat, origin: Vec3, lightDirection: Vec3,
                      sqrt: real -> real)
    returns (transmission: Vec3)
    requires i < |spheres|
    ensures transmission == Splat(0.0) || transmission == Splat(1.0)
    ensures transmission == Splat(0.0) <==> Shadowed(spheres, i, origin, lightDirection, sqrt)
  {
    transmission := Splat(1.0);
    var j := 0;
    while j < |spheres|
      invariant 0 <= j <= |spheres|
      invariant transmission == Splat(1.0)
      invariant forall k :: 0 <= k < j && k != i ==> HitAt(spheres, k, origin, lightDirection, sqrt).Miss?
    {
      if i != j {
        var t0 := new Cell(0.0);
        var t1 := new Cell(0.0);
        var hit := spheres[j].IntersectInto(origin, lightDirection, sqrt, t0, t1);
        if hit {
          assert HitAt(spheres, j, origin, lightDirection, sqrt).Hit?;
          transmission := Splat(0.0);
          break;
        }
      }
      j := j + 1;
    }
  }

  /** The normalized direction from the hit point to the centre of sphere `i`. */
  function LightDirection(spheres: seq<Sphere>, i: nat, phit: Vec3, sqrt: real -> real): Vec3
    requires i < |spheres| && IsSqrt(sqrt)
  {
    spheres[i].center.Sub(phit).Normalize(sqrt)
  }

  /** What light `i` adds to the colour of a surface of colour `surface`:
      the ambient part scaled by the binary transmission, the cosine and the
      emission, plus the diffuse part `surface * DIFF`. */
  function LightTerm(spheres: seq<Sphere>, i: nat, surface: Vec3, phit: Vec3, nhit: Vec3,
                     sqrt: real -> real): (r: Vec3)
    requires i < |spheres| && IsSqrt(sqrt)
    ensures var ldir := LightDirection(spheres, i, phit, sqrt);
            var cos := Max(0.0, nhit.Dot(ldir));
            var e := spheres[i].emissionColor;
            if Shadowed(spheres, i, phit.Add(nhit), ldir, sqrt) then r == surface.Scale(DIFF)
            else r == Vec3(surface.x * (AMB * cos * e.x + DIFF),
                           surface.y * (AMB * cos * e.y + DIFF),
                           surface.z * (AMB * cos * e.z + DIFF))
  {
    var ldir := LightDirection(spheres, i, phit, sqrt);
    Lit(surface, Max(0.0, nhit.Dot(ldir)), spheres[i].emissionColor,
        Shadowed(spheres, i, phit.Add(nhit), ldir, sqrt))
  }

  /** The light term once the shadow test is done: the ambient part scaled
      by the binary transmission, the cosine and the emission, plus the
      diffuse part. */
  function Lit(surface: Vec3, cos: real, e: Vec3, shadowed: bool): (r: Vec3)
    ensures if shadowed then r == surface.Scale(DIFF)
            else r == Vec3(surface.x * (AMB * cos * e.x + DIFF),
                           surface.y * (AMB * cos * e.y + DIFF),
                           surface.z * (AMB * cos * e.z + DIFF))
  {
    var transmission := if shadowed then Splat(0.0) else Splat(1.0);
    var term := surface.Scale(AMB).Mul(transmission).Scale(cos).Mul(e).Add(surface.Scale(DIFF));
    if shadowed then
      Blocked(surface.Scale(AMB), cos, e, surface.Scale(DIFF));
      term
    else
      Unblocked(surface, cos, e);
      term
  }

  /** The colour accumulated over the first `k` spheres, in index order. */
  function Illumination(spheres: seq<Sphere>, k: nat, surface: Vec3, phit: Vec3, nhit: Vec3,
                        sqrt: real -> real): Vec3
    requires k <= |spheres| && IsSqrt(sqrt)
  {
    if k == 0 then Zero()
    else
      var c := Illumination(spheres, k - 1, surface, phit, nhit, sqrt);
      if Emissive(spheres[k - 1]) then c.Add(LightTerm(spheres, k - 1, surface, phit, nhit, sqrt)) else c
  }

  /** The number of emissive spheres among the first `k`. */
  function EmitterCount(spheres: seq<Sphere>, k: nat): nat
    requires k <= |spheres|
  {
    if k == 0 then 0
    else EmitterCount(spheres, k - 1) + if Emissive(spheres[k - 1]) then 1 else 0
  }

  /** The light loop of `trace`: `surfaceColor` starts at zero and every
      emissive sphere adds its `LightTerm`. */
  method Illuminate(spheres: seq<Sphere>, surface: Vec3, phit: Vec3, nhit: Vec3, sqrt: real -> real)
    returns (surfaceColor: Vec3)
    requires IsSqrt(sqrt)
    ensures surfaceColor == Illumination(spheres, |spheres|, surface, phit, nhit, sqrt)
  {
    surfaceColor := Zero();
    var i := 0;
    while i < |spheres|
      invariant 0 <= i <= |spheres|
      invariant surfaceColor == Illumination(spheres, i, surface, phit, nhit, sqrt)
    {
      if Emissive(spheres[i]) {
        var lightDirection := spheres[i].center.Sub(phit);
        lightDirection := lightDirection.Normalize(sqrt);
        var transmission := Transmission(spheres, i, phit.Add(nhit), lightDirection, sqrt);
        surfaceColor := surfaceColor.Add(
          surface.Scale(AMB).Mul(transmission).Scale(Max(0.0, nhit.Dot(lightDirection)))
            .Mul(spheres[i].emissionColor).Add(surface.Scale(DIFF)));
      }
      i := i + 1;
    }
  }

  /** A zero transmission cancels the ambient part whatever it is scaled by. */
  lemma Blocked(ambient: Vec3, cos: real, emission: Vec3, diffuse: Vec3)
    ensures ambient.Mul(Splat(0.0)).Scale(cos).Mul(emission).Add(diffuse) == diffuse
  {
  }

  /** A unit transmission leaves `surface * (AMB * cos * emission + DIFF)`. */
  lemma Unblocked(surface: Vec3, cos: real, e: Vec3)
    ensures surface.Scale(AMB).Mul(Splat(1.0)).Scale(cos).Mul(e).Add(surface.Scale(DIFF))
         == Vec3(surface.x * (AMB * cos * e.x + DIFF),
                 surface.y * (AMB * cos * e.y + DIFF),
                 surface.z * (AMB * cos * e.z + DIFF))
  {
    Factor(surface.x, cos, e.x);
    Factor(surface.y, cos, e.y);
    Factor(surface.z, cos, e.z);
  }

  lemma Factor(s: real, cos: real, e: real)
    ensures s * AMB * 1.0 * cos * e + s * DIFF == s * (AMB * cos * e + DIFF)
  {
  }

  /** With no emissive sphere, nothing is accumulated. */
  lemma {:induction false} NoEmitterNoLight(spheres: seq<Sphere>, k: nat, surface: Vec3,
                                            phit: Vec3, nhit: Vec3, sqrt: real -> real)
    requires k <= |spheres| && IsSqrt(sqrt)
    requires forall i :: 0 <= i < k ==> !Emissive(spheres[i])
    ensures Illumination(spheres, k, surface, phit, nhit, sqrt) == Zero()
  {
    if k > 0 {
      NoEmitterNoLight(spheres, k - 1, surface, phit, nhit, sqrt);
    }
  }

  /** When every light is shadowed, each still adds the diffuse part, so the
      colour is `surface * DIFF` times the number of lights. */
  lemma {:induction false} AllShadowedIsDiffuse(spheres: seq<Sphere>, k: nat, surface: Vec3,
                                                phit: Vec3, nhit: Vec3, sqrt: real -> real)
    requires k <= |spheres| && IsSqrt(sqrt)
    requires forall i :: 0 <= i < k && Emissive(spheres[i]) ==>
               Shadowed(spheres, i, phit.Add(nhit), LightDirection(spheres, i, phit, sqrt), sqrt)
    ensures Illumination(spheres, k, surface, phit, nhit, sqrt)
         == surface.Scale(DIFF * EmitterCount(spheres, k) as real)
  {
    if k > 0 {
      AllShadowedIsDiffuse(spheres, k - 1, surface, phit, nhit, sqrt);
      var n := EmitterCount(spheres, k - 1) as real;
      if Emissive(spheres[k - 1]) {
        assert Shadowed(spheres, k - 1, phit.Add(nhit), LightDirection(spheres, k - 1, phit, sqrt), sqrt);
        DiffuseStep(surface, n);
      }
    }
  }

  lemma DiffuseStep(surface: Vec3, n: real)
    ensures surface.Scale(DIFF * n).Add(surface.Scale(DIFF)) == surface.Scale(DIFF * (n + 1.0))
  {
    AddMultiple(surface.x, n);
    AddMultiple(surface.y, n);
    AddMultiple(surface.z, n);
  }

  lemma AddMultiple(s: real, n: real)
    ensures s * (DIFF * n) + s * DIFF == s * (DIFF * (n + 1.0))
  {
  }

  /** The golf ball of the default scene, colour (0.4, 0.7, 0.9), with its one
      light blocked: the light loop accumulates only the diffuse part
      (0.16, 0.28, 0.36). The pixel itself also gets the specular term, which
      primary mode always folds in (`SpecularAlwaysFires`). */
  lemma BlockedGolfBall(spheres: seq<Sphere>, surface: Vec3, phit: Vec3, nhit: Vec3,
                        sqrt: real -> real)
    requires IsSqrt(sqrt) && surface == Vec3(0.4, 0.7, 0.9)
    requires EmitterCount(spheres, |spheres|) == 1
    requires forall i :: 0 <= i < |spheres| && Emissive(spheres[i]) ==>
               Shadowed(spheres, i, phit.Add(nhit), LightDirection(spheres, i, phit, sqrt), sqrt)
    ensures Illumination(spheres, |spheres|, surface, phit, nhit, sqrt) == Vec3(0.16, 0.28, 0.36)
  {
    AllShadowedIsDiffuse(spheres, |spheres|, surface, phit, nhit, sqrt);
  }

  /*** Reflection and the specular fold-in ***/

  /** `eyeDir - nhit * 2 * eyeDir.dot(nhit)`, before normalization. */
  function Mirror(dir: Vec3, n: Vec3): Vec3 {
    dir.Sub(n.Scale(2.0).Scale(dir.Dot(n)))
  }

  /** For a unit normal, mirroring flips the component along the normal. */
  lemma MirrorFlipsNormalComponent(dir: Vec3, n: Vec3)
    requires n.Length2() == 1.0
    ensures Mirror(dir, n).Dot(n) == -dir.Dot(n)
  {
    var k := MirrorComponents(dir, n);
    var m := Vec3(dir.x - n.x * 2.0 * k, dir.y - n.y * 2.0 * k, dir.z - n.z * 2.0 * k);
    calc {
      m.Dot(n);
      (dir.x - n.x * 2.0 * k) * n.x + (dir.y - n.y * 2.0 * k) * n.y + (dir.z - n.z * 2.0 * k) * n.z;
      { MirrorComponent(dir.x, n.x, k);
        MirrorComponent(dir.y, n.y, k);
        MirrorComponent(dir.z, n.z, k); }
      k - 2.0 * k * (n.x * n.x + n.y * n.y + n.z * n.z);
      k - 2.0 * k * n.Length2();
      -k;
    }
  }

  /** The mirror, component by component, with `k = dir . n`. */
  lemma MirrorComponents(dir: Vec3, n: Vec3) returns (k: real)
    ensures k == dir.Dot(n)
    ensures Mirror(dir, n) == Vec3(dir.x - n.x * 2.0 * k, dir.y - n.y * 2.0 * k, dir.z - n.z * 2.0 * k)
  {
    k := dir.Dot(n);
    var twice := n.Scale(2.0);
    assert twice == Vec3(n.x * 2.0, n.y * 2.0, n.z * 2.0);
    assert twice.Scale(k) == Vec3(n.x * 2.0 * k, n.y * 2.0 * k, n.z * 2.0 * k);
  }

  lemma MirrorComponent(d: real, n: real, k: real)
    ensures (d - n * 2.0 * k) * n == d * n - 2.0 * k * (n * n)
  {
  }

  /** Mirroring about a unit normal keeps the squared length. */
  lemma MirrorKeepsLength(dir: Vec3, n: Vec3)
    requires n.Length2() == 1.0
    ensures Mirror(dir, n).Length2() == dir.Length2()
  {
    var k := MirrorComponents(dir, n);
    var m := Vec3(dir.x - n.x * 2.0 * k, dir.y - n.y * 2.0 * k, dir.z - n.z * 2.0 * k);
    assert m.Length2() == dir.Length2() by {
      MirroredSquares(dir.x, dir.y, dir.z, n.x, n.y, n.z, k);
    }
  }

  lemma MirroredSquares(dx: real, dy: real, dz: real, nx: real, ny: real, nz: real, k: real)
    requires k == dx * nx + dy * ny + dz * nz && nx * nx + ny * ny + nz * nz == 1.0
    ensures (dx - nx * 2.0 * k) * (dx - nx * 2.0 * k) + (dy - ny * 2.0 * k) * (dy - ny * 2.0 * k)
          + (dz - nz * 2.0 * k) * (dz - nz * 2.0 * k)
         == dx * dx + dy * dy + dz * dz
  {
    MirrorSquare(dx, nx, k);
    MirrorSquare(dy, ny, k);
    MirrorSquare(dz, nz, k);
    var c := 4.0 * k;
    var q := 4.0 * (k * k);
    assert c * (dx * nx) + c * (dy * ny) + c * (dz * nz) == c * k;
    assert q * (nx * nx) + q * (ny * ny) + q * (nz * nz) == q;
    assert c * k == q;
  }

  lemma MirrorSquare(d: real, n: real, k: real)
    ensures (d - n * 2.0 * k) * (d - n * 2.0 * k) == d * d - 4.0 * k * (d * n) + 4.0 * (k * k) * (n * n)
  {
  }

  /** `refldir`: the mirrored direction, normalized. */
  function Reflect(dir: Vec3, n: Vec3, sqrt: real -> real): Vec3
    requires IsSqrt(sqrt)
  {
    Mirror(dir, n).Normalize(sqrt)
  }

  /** Reflecting a direction of positive length about a unit normal, or
      about the zero normal that `normalize` leaves at a sphere's centre,
      gives a unit vector. */
  lemma ReflectIsUnit(dir: Vec3, n: Vec3, sqrt: real -> real)
    requires IsSqrt(sqrt) && 0.0 < dir.Length2()
    requires n.Length2() == 1.0 || n.Length2() == 0.0
    ensures Reflect(dir, n, sqrt).Length2() == 1.0
  {
    if n.Length2() == 1.0 {
      MirrorKeepsLength(dir, n);
    } else {
      ZeroLengthIsZero(n);
      MirrorAboutZero(dir);
    }
  }

  /** Mirroring about the zero normal leaves the direction unchanged. */
  lemma MirrorAboutZero(dir: Vec3)
    ensures Mirror(dir, Zero()) == dir
  {
    ZeroAbsorbs(dir, 2.0);
    ZeroAbsorbs(dir, dir.Dot(Zero()));
    ZeroIsIdentity(dir);
  }

  /** `-SPEC / (r1 * r1 * r1)`. */
  function SpecularTerm(r1: real): real
    requires r1 != 0.0
  {
    -SPEC / (r1 * r1 * r1)
  }

  /** The specular fold-in of primary mode: whenever the probe's answer `r`
      is not the zero vector (the miss sentinel included), every component
      gains `-SPEC / r1^3` with `r1 = r . eyeDir`. */
  function Specular(color: Vec3, r: Vec3, eyeDir: Vec3): (c: Vec3)
    ensures r == Zero() ==> c == color
    ensures r != Zero() && r.Dot(eyeDir) != 0.0 ==>
              var r1 := r.Dot(eyeDir);
              c.Sub(color) == Splat(-SPEC / (r1 * r1 * r1))
  {
    if r.x != 0.0 || r.y != 0.0 || r.z != 0.0 then
      var r1 := r.Dot(eyeDir);
      if r1 != 0.0 then color.Add(Splat(SpecularTerm(r1))) else color
    else color
  }

  /*** The tracer ***/

  /** Where a primary ray that chose `c` hit, and the normal it shades with. */
  datatype Surfel = Surfel(sphere: Sphere, phit: Vec3, nhit: Vec3)

  function HitSurfel(o: Vec3, d: Vec3, spheres: seq<Sphere>, c: Choice, sqrt: real -> real): (s: Surfel)
    requires c.sphere.Some? && c.sphere.value < |spheres| && IsSqrt(sqrt)
    ensures d.Dot(s.nhit) <= 0.0
    ensures 0.0 < s.phit.Sub(s.sphere.center).Length2() ==> s.nhit.Length2() == 1.0
    ensures s.phit.Sub(s.sphere.center).Length2() == 0.0 ==> s.nhit.Length2() == 0.0
  {
    var sphere := spheres[c.sphere.value];
    var phit := o.Add(d.Scale(c.near));
    Surfel(sphere, phit, FaceForward(d, phit.Sub(sphere.center).Normalize(sqrt)))
  }

  /** What `trace` returns. */
  ghost function Traced(o: Vec3, d: Vec3, spheres: seq<Sphere>, light: bool,
                        sqrt: real -> real, infinity: real): Vec3
    requires NLIGHTS <= |spheres| && IsSqrt(sqrt)
    decreases if light then 0 else 2
  {
    var c := Nearest(spheres, light, o, d, sqrt, infinity);
    if c.sphere.None? then Sentinel()
    else if light then d
    else Shaded(o, d, spheres, c, sqrt, infinity)
  }

  /** What primary mode returns on a hit. */
  ghost function Shaded(o: Vec3, d: Vec3, spheres: seq<Sphere>, c: Choice, sqrt: real -> real,
                        infinity: real): Vec3
    requires NLIGHTS <= |spheres| && IsSqrt(sqrt)
    requires c.sphere.Some? && c.sphere.value < |spheres|
    decreases 1
  {
    var s := HitSurfel(o, d, spheres, c, sqrt);
    var color := Illumination(spheres, |spheres|, s.sphere.surfaceColor, s.phit, s.nhit, sqrt);
    var r := Traced(s.phit.Add(s.nhit), Reflect(d, s.nhit, sqrt), spheres, true, sqrt, infinity);
    Specular(color, r, d)
  }

  /** The tracer. `depth` counts the nesting of recursive calls below this
      one: probe mode never recurses, primary mode recurses once on a hit. */
  method Trace(eyeOrigin: Vec3, eyeDir: Vec3, spheres: seq<Sphere>, light: bool,
               sqrt: real -> real, infinity: real)
    returns (color: Vec3, ghost depth: nat)
    requires NLIGHTS <= |spheres| && IsSqrt(sqrt)
    ensures color == Traced(eyeOrigin, eyeDir, spheres, light, sqrt, infinity)
    ensures Nearest(spheres, light, eyeOrigin, eyeDir, sqrt, infinity).sphere.None? ==>
              color == Sentinel() && depth == 0
    ensures light && Nearest(spheres, light, eyeOrigin, eyeDir, sqrt, infinity).sphere.Some? ==>
              color == eyeDir
    ensures light ==> depth == 0
    ensures !light && Nearest(spheres, light, eyeOrigin, eyeDir, sqrt, infinity).sphere.Some? ==>
              depth == 1
    decreases if light then 0 else 1
  {
    var near, sphere, _ := FindNearest(eyeOrigin, eyeDir, spheres, light, sqrt, infinity);
    if sphere.None? {
      return Sentinel(), 0;
    }
    var s := spheres[sphere.value];
    var phit := eyeOrigin.Add(eyeDir.Scale(near));
    var nhit := phit.Sub(s.center);
    nhit := nhit.Normalize(sqrt);
    if eyeDir.Dot(nhit) > 0.0 {
      nhit := nhit.Neg();
    }
    assert HitSurfel(eyeOrigin, eyeDir, spheres, Choice(near, sphere), sqrt) == Surfel(s, phit, nhit);
    var surfaceColor := Illuminate(spheres, s.surfaceColor, phit, nhit, sqrt);
    ghost var shaded := surfaceColor;
    var refldir := eyeDir.Sub(nhit.Scale(2.0).Scale(eyeDir.Dot(nhit)));
    refldir := refldir.Normalize(sqrt);
    assert refldir == Reflect(eyeDir, nhit, sqrt);
    if !light {
      var r, probeDepth := Trace(phit.Add(nhit), refldir, spheres, true, sqrt, infinity);
      if r.x != 0.0 || r.y != 0.0 || r.z != 0.0 {
        var r1 := r.Dot(eyeDir);
        if r1 != 0.0 {
          surfaceColor := surfaceColor.Add(Splat(SpecularTerm(r1)));
        }
      }
      assert surfaceColor == Specular(shaded, r, eyeDir);
      depth := 1 + probeDepth;
    } else {
      return eyeDir, 0;
    }
    color := surfaceColor;
  }

  /** In primary mode the probe's answer is either the reflected direction
      (the probe hit a light) or the miss sentinel, and the shaded colour is
      folded with it. */
  lemma PrimaryColor(o: Vec3, d: Vec3, spheres: seq<Sphere>, sqrt: real -> real, infinity: real)
    requires NLIGHTS <= |spheres| && IsSqrt(sqrt)
    requires Nearest(spheres, false, o, d, sqrt, infinity).sphere.Some?
    ensures var s := HitSurfel(o, d, spheres, Nearest(spheres, false, o, d, sqrt, infinity), sqrt);
            var refldir := Reflect(d, s.nhit, sqrt);
            var probe := Nearest(spheres, true, s.phit.Add(s.nhit), refldir, sqrt, infinity);
            Traced(o, d, spheres, false, sqrt, infinity)
              == Specular(Illumination(spheres, |spheres|, s.sphere.surfaceColor, s.phit, s.nhit, sqrt),
                          if probe.sphere.Some? then refldir else Sentinel(), d)
  {
  }

  /** The specular term fires on the miss sentinel too: when the probe
      misses, every component gains `-SPEC / r1^3` with
      `r1 = (-1, -1, -1) . eyeDir`. */
  lemma SentinelFiresSpecular(o: Vec3, d: Vec3, spheres: seq<Sphere>, sqrt: real -> real, infinity: real)
    requires NLIGHTS <= |spheres| && IsSqrt(sqrt)
    requires Nearest(spheres, false, o, d, sqrt, infinity).sphere.Some?
    requires var s := HitSurfel(o, d, spheres, Nearest(spheres, false, o, d, sqrt, infinity), sqrt);
             Nearest(spheres, true, s.phit.Add(s.nhit), Reflect(d, s.nhit, sqrt), sqrt, infinity).sphere.None?
    requires d.x + d.y + d.z != 0.0
    ensures var s := HitSurfel(o, d, spheres, Nearest(spheres, false, o, d, sqrt, infinity), sqrt);
            var r1 := -(d.x + d.y + d.z);
            Traced(o, d, spheres, false, sqrt, infinity)
              == Illumination(spheres, |spheres|, s.sphere.surfaceColor, s.phit, s.nhit, sqrt)
                   .Add(Splat(-SPEC / (r1 * r1 * r1)))
  {
    var s := HitSurfel(o, d, spheres, Nearest(spheres, false, o, d, sqrt, infinity), sqrt);
    PrimaryColor(o, d, spheres, sqrt, infinity);
    SentinelSpecular(Illumination(spheres, |spheres|, s.sphere.surfaceColor, s.phit, s.nhit, sqrt), d);
  }

  /** A primary ray of positive length that hits a sphere gets a probe
      answer that is never the zero vector: the reflected direction has unit
      length, and the miss sentinel is `(-1, -1, -1)`. */
  lemma ProbeAnswerNonzero(o: Vec3, d: Vec3, spheres: seq<Sphere>, sqrt: real -> real, infinity: real)
    requires NLIGHTS <= |spheres| && IsSqrt(sqrt)
    requires Nearest(spheres, false, o, d, sqrt, infinity).sphere.Some?
    requires 0.0 < d.Length2()
    ensures var s := HitSurfel(o, d, spheres, Nearest(spheres, false, o, d, sqrt, infinity), sqrt);
            var refldir := Reflect(d, s.nhit, sqrt);
            refldir.Length2() == 1.0 &&
            Traced(s.phit.Add(s.nhit), refldir, spheres, true, sqrt, infinity) != Zero()
  {
    var s := HitSurfel(o, d, spheres, Nearest(spheres, false, o, d, sqrt, infinity), sqrt);
    var refldir := Reflect(d, s.nhit, sqrt);
    ReflectIsUnit(d, s.nhit, sqrt);
    UnitIsNonzero(refldir);
    ProbeAnswer(s.phit.Add(s.nhit), refldir, spheres, sqrt, infinity);
  }

  /** For a unit direction, the primary hit point lies on the surface of the
      sphere it chose: `near` is that sphere's `t0` or `t1`. */
  lemma PrimaryHitOnSurface(o: Vec3, d: Vec3, spheres: seq<Sphere>, sqrt: real -> real, infinity: real)
    requires NLIGHTS <= |spheres| && IsSqrt(sqrt) && d.Length2() == 1.0
    requires Nearest(spheres, false, o, d, sqrt, infinity).sphere.Some?
    ensures var s := HitSurfel(o, d, spheres, Nearest(spheres, false, o, d, sqrt, infinity), sqrt);
            s.phit.Sub(s.sphere.center).Length2() == s.sphere.radius2
  {
    var c := Nearest(spheres, false, o, d, sqrt, infinity);
    ScanIsNearest(spheres, ScanStart(|spheres|, false), ScanEnd(|spheres|, false), o, d, sqrt, infinity);
    var m := c.sphere.value;
    assert c.near == Effective(HitAt(spheres, m, o, d, sqrt));
    HitEndOnSurface(spheres[m], o, d, sqrt, c.near);
  }

  /** A probe answers with its own direction on a hit and with the sentinel
      on a miss. */
  lemma ProbeAnswer(o: Vec3, d: Vec3, spheres: seq<Sphere>, sqrt: real -> real, infinity: real)
    requires NLIGHTS <= |spheres| && IsSqrt(sqrt)
    ensures Traced(o, d, spheres, true, sqrt, infinity)
         == if Nearest(spheres, true, o, d, sqrt, infinity).sphere.Some? then d else Sentinel()
  {
  }

  lemma UnitIsNonzero(v: Vec3)
    requires v.Length2() == 1.0
    ensures v != Zero()
  {
  }

  /** So in primary mode the specular term is always folded in: whenever
      `r1 = r . eyeDir` is nonzero for the probe's answer `r`, every
      component of the shaded colour gains `-SPEC / r1^3`. */
  lemma SpecularAlwaysFires(o: Vec3, d: Vec3, spheres: seq<Sphere>, sqrt: real -> real, infinity: real)
    requires NLIGHTS <= |spheres| && IsSqrt(sqrt)
    requires Nearest(spheres, false, o, d, sqrt, infinity).sphere.Some?
    requires 0.0 < d.Length2()
    ensures var s := HitSurfel(o, d, spheres, Nearest(spheres, false, o, d, sqrt, infinity), sqrt);
            var r := Traced(s.phit.Add(s.nhit), Reflect(d, s.nhit, sqrt), spheres, true, sqrt, infinity);
            var r1 := r.Dot(d);
            r1 != 0.0 ==>
              Traced(o, d, spheres, false, sqrt, infinity)
                == Illumination(spheres, |spheres|, s.sphere.surfaceColor, s.phit, s.nhit, sqrt)
                     .Add(Splat(SpecularTerm(r1)))
  {
    var s := HitSurfel(o, d, spheres, Nearest(spheres, false, o, d, sqrt, infinity), sqrt);
    var r := Traced(s.phit.Add(s.nhit), Reflect(d, s.nhit, sqrt), spheres, true, sqrt, infinity);
    ProbeAnswerNonzero(o, d, spheres, sqrt, infinity);
    PrimaryColor(o, d, spheres, sqrt, infinity);
    ProbeAnswer(s.phit.Add(s.nhit), Reflect(d, s.nhit, sqrt), spheres, sqrt, infinity);
    if r.Dot(d) != 0.0 {
      var color := Illumination(spheres, |spheres|, s.sphere.surfaceColor, s.phit, s.nhit, sqrt);
      SpecularFires(color, r, d);
      assert r == (if Nearest(spheres, true, s.phit.Add(s.nhit), Reflect(d, s.nhit, sqrt), sqrt, infinity).sphere.Some?
                   then Reflect(d, s.nhit, sqrt) else Sentinel());
      assert Traced(o, d, spheres, false, sqrt, infinity) == Specular(color, r, d);
    }
  }

  lemma SpecularFires(color: Vec3, r: Vec3, d: Vec3)
    requires r != Zero() && r.Dot(d) != 0.0
    ensures var r1 := r.Dot(d);
            Specular(color, r, d) == color.Add(Splat(SpecularTerm(r1)))
  {
  }

  lemma SentinelSpecular(color: Vec3, d: Vec3)
    requires d.x + d.y + d.z != 0.0
    ensures var r1 := -(d.x + d.y + d.z);
            Specular(color, Sentinel(), d) == color.Add(Splat(-SPEC / (r1 * r1 * r1)))
  {
    assert Sentinel().Dot(d) == -(d.x + d.y + d.z);
  }
}
