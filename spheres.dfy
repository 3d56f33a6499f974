/** The `Sphere<T>` template of p4.h: a sphere that is either an opaque surface
    or, when its emission colour is positive, a light; and its geometric
    ray-sphere intersection test. */
module Spheres {
  import opened Vectors

  /** What `intersect` reports: no hit, or the two ray parameters it would
      store through its out-pointers. */
  datatype Hit = Miss | Hit(t0: real, t1: real)

  /** A `T*` out-pointer target of `intersect`. */
  class Cell {
    var value: real

    constructor (v: real)
      ensures value == v
    {
      value := v;
    }
  }

  /** Spheres are never changed after construction, so they are values. */
  datatype Sphere = Sphere(
    center: Vec3,
    radius: real,
    radius2: real,
    surfaceColor: Vec3,
    emissionColor: Vec3,
    transparency: real,
    reflection: real)
  {
    /** `tca`: the length of the projection of `center - rayorig` on the ray. */
    function Tca(rayorig: Vec3, raydir: Vec3): real {
      center.Sub(rayorig).Dot(raydir)
    }

    /** `d2`: the squared distance from the centre to the ray's line when
        `raydir` is a unit vector. */
    function D2(rayorig: Vec3, raydir: Vec3): real {
      var l := center.Sub(rayorig);
      l.Dot(l) - Tca(rayorig, raydir) * Tca(rayorig, raydir)
    }

    /** The geometric test. It misses exactly when the centre lies behind the
        origin (`tca < 0`) or the line passes farther than the radius from the
        centre (`d2 > radius2`); a hit gives `t0 = tca - thc <= t1 = tca + thc`,
        symmetric about `tca`. */
    function Intersect(rayorig: Vec3, raydir: Vec3, sqrt: real -> real): (h: Hit)
      ensures Tca(rayorig, raydir) < 0.0 ==> h == Miss
      ensures D2(rayorig, raydir) > radius2 ==> h == Miss
      ensures h.Hit? <==> 0.0 <= Tca(rayorig, raydir) && D2(rayorig, raydir) <= radius2
      ensures IsSqrt(sqrt) && h.Hit? ==>
                h.t0 <= h.t1 && h.t0 + h.t1 == 2.0 * Tca(rayorig, raydir)
    {
      var tca := Tca(rayorig, raydir);
      if tca < 0.0 then Miss
      else
        var d2 := D2(rayorig, raydir);
        if d2 > radius2 then Miss
        else
          var thc := sqrt(radius2 - d2);
          Hit(tca - thc, tca + thc)
    }

    /** `intersect` with its out-pointers: `t0` and `t1` are written only on a
        hit and only when both are non-null (when both name the same target,
        the second write, `t1`, wins); otherwise nothing is written. */
    method IntersectInto(rayorig: Vec3, raydir: Vec3, sqrt: real -> real, t0: Cell?, t1: Cell?)
      returns (hit: bool)
      modifies t0, t1
      ensures hit == Intersect(rayorig, raydir, sqrt).Hit?
      ensures hit && t0 != null && t1 != null ==>
                t1.value == Intersect(rayorig, raydir, sqrt).t1 &&
                (t0 != t1 ==> t0.value == Intersect(rayorig, raydir, sqrt).t0)
      ensures !(hit && t0 != null && t1 != null) ==>
                (t0 != null ==> t0.value == old(t0.value)) &&
                (t1 != null ==> t1.value == old(t1.value))
    {
      var h := Intersect(rayorig, raydir, sqrt);
      hit := h.Hit?;
      if hit && t0 != null && t1 != null {
        t0.value := h.t0;
        t1.value := h.t1;
      }
    }
  }

  /** The constructor: `radius2` is cached as `r * r` and every other argument
      is stored as given (`refl`, `transp` and `ec` default to zero). */
  function NewSphere(c: Vec3, r: real, sc: Vec3, refl: real := 0.0,
                     transp: real := 0.0, ec: Vec3 := Zero()): (s: Sphere)
    ensures s.radius2 == r * r
    ensures s.center == c && s.radius == r && s.surfaceColor == sc
    ensures s.emissionColor == ec && s.reflection == refl && s.transparency == transp
  {
    Sphere(c, r, r * r, sc, ec, transp, refl)
  }

  /** The squared distance from `c` of the point at parameter `t` along a ray. */
  lemma DistanceAlongRay(o: Vec3, d: Vec3, c: Vec3, t: real)
    ensures o.Add(d.Scale(t)).Sub(c).Length2()
         == t * t * d.Length2() - 2.0 * t * c.Sub(o).Dot(d) + c.Sub(o).Length2()
  {
    OffsetAlong(o, d, c, t);
    ExpandAlong(d, c.Sub(o), t);
    assert c.Sub(o) == Vec3(c.x - o.x, c.y - o.y, c.z - o.z);
  }

  lemma OffsetAlong(o: Vec3, d: Vec3, c: Vec3, t: real)
    ensures o.Add(d.Scale(t)).Sub(c)
         == Vec3(d.x * t - (c.x - o.x), d.y * t - (c.y - o.y), d.z * t - (c.z - o.z))
  {
    var p := o.Add(d.Scale(t)).Sub(c);
    assert p.x == o.x + d.x * t - c.x;
    assert p.y == o.y + d.y * t - c.y;
    assert p.z == o.z + d.z * t - c.z;
  }

  lemma ExpandAlong(d: Vec3, l: Vec3, t: real)
    ensures Vec3(d.x * t - l.x, d.y * t - l.y, d.z * t - l.z).Length2()
         == t * t * d.Length2() - 2.0 * t * l.Dot(d) + l.Length2()
  {
    var p := Vec3(d.x * t - l.x, d.y * t - l.y, d.z * t - l.z);
    SquareAlong(d.x, t, l.x);
    SquareAlong(d.y, t, l.y);
    SquareAlong(d.z, t, l.z);
    var tt := t * t;
    var t2 := 2.0 * t;
    Distribute(tt, d.x * d.x, d.y * d.y, d.z * d.z);
    Distribute(t2, l.x * d.x, l.y * d.y, l.z * d.z);
    assert p.Length2() == (tt * (d.x * d.x) - t2 * (l.x * d.x) + l.x * l.x)
        + (tt * (d.y * d.y) - t2 * (l.y * d.y) + l.y * l.y)
        + (tt * (d.z * d.z) - t2 * (l.z * d.z) + l.z * l.z);
  }

  lemma Distribute(k: real, a: real, b: real, c: real)
    ensures k * a + k * b + k * c == k * (a + b + c)
  {
  }

  lemma SquareAlong(a: real, t: real, b: real)
    ensures (a * t - b) * (a * t - b) == t * t * (a * a) - 2.0 * t * (b * a) + b * b
  {
  }

  /** For a unit direction, both reported parameters lie on the sphere's
      surface: the points `rayorig + raydir * t0` and `rayorig + raydir * t1`
      are at squared distance `radius2` from the centre. */
  lemma HitIsOnSurface(s: Sphere, rayorig: Vec3, raydir: Vec3, sqrt: real -> real)
    requires IsSqrt(sqrt) && raydir.Length2() == 1.0
    requires s.Intersect(rayorig, raydir, sqrt).Hit?
    ensures rayorig.Add(raydir.Scale(s.Intersect(rayorig, raydir, sqrt).t0)).Sub(s.center).Length2() == s.radius2
    ensures rayorig.Add(raydir.Scale(s.Intersect(rayorig, raydir, sqrt).t1)).Sub(s.center).Length2() == s.radius2
  {
    var h := s.Intersect(rayorig, raydir, sqrt);
    HitEndOnSurface(s, rayorig, raydir, sqrt, h.t0);
    HitEndOnSurface(s, rayorig, raydir, sqrt, h.t1);
  }

  lemma HitEndOnSurface(s: Sphere, rayorig: Vec3, raydir: Vec3, sqrt: real -> real, t: real)
    requires IsSqrt(sqrt) && raydir.Length2() == 1.0
    requires s.Intersect(rayorig, raydir, sqrt).Hit?
    requires t == s.Intersect(rayorig, raydir, sqrt).t0 || t == s.Intersect(rayorig, raydir, sqrt).t1
    ensures rayorig.Add(raydir.Scale(t)).Sub(s.center).Length2() == s.radius2
  {
    var thc := HalfChord(s, rayorig, raydir, sqrt);
    ChordEndOnSurface(rayorig, raydir, s.center, s.radius2, s.Tca(rayorig, raydir), thc, t);
  }

  /** Either end `tca -+ thc` of the chord is at squared distance `r2` from `c`. */
  lemma ChordEndOnSurface(o: Vec3, d: Vec3, c: Vec3, r2: real, tca: real, thc: real, t: real)
    requires d.Length2() == 1.0 && tca == c.Sub(o).Dot(d)
    requires thc * thc == r2 - (c.Sub(o).Length2() - tca * tca)
    requires t == tca - thc || t == tca + thc
    ensures o.Add(d.Scale(t)).Sub(c).Length2() == r2
  {
    OnSurfaceAt(o, d, c, tca, t);
    HalfChordOffset(tca, thc, c.Sub(o).Length2(), r2);
  }

  /** On a hit, the two parameters are `tca -+ thc` where `thc` squared is
      `radius2` less the squared distance from the centre to the line. */
  lemma HalfChord(s: Sphere, rayorig: Vec3, raydir: Vec3, sqrt: real -> real) returns (thc: real)
    requires IsSqrt(sqrt) && s.Intersect(rayorig, raydir, sqrt).Hit?
    ensures s.Intersect(rayorig, raydir, sqrt)
         == Hit(s.Tca(rayorig, raydir) - thc, s.Tca(rayorig, raydir) + thc)
    ensures thc * thc == s.radius2 - (s.center.Sub(rayorig).Length2()
                                      - s.Tca(rayorig, raydir) * s.Tca(rayorig, raydir))
  {
    var d2 := s.D2(rayorig, raydir);
    assert d2 <= s.radius2;
    thc := sqrt(s.radius2 - d2);
    assert thc * thc == s.radius2 - d2;
  }

  /** At either end of the chord, `(t - tca)^2 - tca^2 + ll` is `r2` when
      `thc^2 = r2 - (ll - tca^2)`. */
  lemma HalfChordOffset(tca: real, thc: real, ll: real, r2: real)
    requires thc * thc == r2 - (ll - tca * tca)
    ensures ((tca - thc) - tca) * ((tca - thc) - tca) - tca * tca + ll == r2
    ensures ((tca + thc) - tca) * ((tca + thc) - tca) - tca * tca + ll == r2
  {
    assert (tca - thc) - tca == -thc && (tca + thc) - tca == thc;
    assert (-thc) * (-thc) == thc * thc;
  }

  /** Along a unit direction, the squared distance from `c` at parameter `t`
      is `(t - tca)^2 - tca^2 + |c - o|^2`. */
  lemma OnSurfaceAt(o: Vec3, d: Vec3, c: Vec3, tca: real, t: real)
    requires d.Length2() == 1.0 && tca == c.Sub(o).Dot(d)
    ensures o.Add(d.Scale(t)).Sub(c).Length2()
         == (t - tca) * (t - tca) - tca * tca + c.Sub(o).Length2()
  {
    DistanceAlongRay(o, d, c, t);
    assert t * t * d.Length2() == t * t;
    CompleteSquare(t, tca);
  }

  lemma CompleteSquare(t: real, a: real)
    ensures t * t - 2.0 * t * a == (t - a) * (t - a) - a * a
  {
  }

  /** A ray aimed straight at the centre (`d2 == 0`) from outside a sphere of
      positive radius hits it at two distinct positive parameters. */
  lemma AimedAtCentreFromOutside(s: Sphere, rayorig: Vec3, raydir: Vec3, sqrt: real -> real)
    requires IsSqrt(sqrt) && 0.0 < s.radius2
    requires 0.0 <= s.Tca(rayorig, raydir) && s.D2(rayorig, raydir) == 0.0
    requires s.radius2 < s.center.Sub(rayorig).Length2()
    ensures s.Intersect(rayorig, raydir, sqrt).Hit?
    ensures 0.0 < s.Intersect(rayorig, raydir, sqrt).t0 < s.Intersect(rayorig, raydir, sqrt).t1
  {
    var tca := s.Tca(rayorig, raydir);
    assert s.radius2 - s.D2(rayorig, raydir) == s.radius2;
    var thc := sqrt(s.radius2);
    assert 0.0 <= thc && thc * thc == s.radius2;
    assert tca * tca == s.center.Sub(rayorig).Length2();
    if tca <= thc {
      SquareMonotone(tca, thc);
      assert false;
    }
    if thc == 0.0 {
      assert false;
    }
    assert s.Intersect(rayorig, raydir, sqrt) == Hit(tca - thc, tca + thc);
  }

  /** The same, for a ray whose direction is the normalized vector from its
      origin to the centre of a sphere of positive radius that does not
      contain the origin. */
  lemma AimedAtCentre(s: Sphere, rayorig: Vec3, raydir: Vec3, sqrt: real -> real)
    requires IsSqrt(sqrt) && 0.0 < s.radius2
    requires raydir == s.center.Sub(rayorig).Normalize(sqrt)
    requires s.radius2 < s.center.Sub(rayorig).Length2()
    ensures s.Intersect(rayorig, raydir, sqrt).Hit?
    ensures 0.0 < s.Intersect(rayorig, raydir, sqrt).t0 < s.Intersect(rayorig, raydir, sqrt).t1
  {
    var l := s.center.Sub(rayorig);
    NormalizeHasUnitLength(l, sqrt);
    var len := sqrt(l.Length2());
    var inv := 1.0 / len;
    assert raydir == l.Scale(inv);
    DotScaled(l, inv);
    Cancel(len, l.Length2(), inv);
    assert s.Tca(rayorig, raydir) == len;
    assert s.D2(rayorig, raydir) == 0.0;
    AimedAtCentreFromOutside(s, rayorig, raydir, sqrt);
  }

  lemma DotScaled(l: Vec3, k: real)
    ensures l.Dot(l.Scale(k)) == l.Length2() * k
  {
    assert l.x * (l.x * k) == (l.x * l.x) * k;
    assert l.y * (l.y * k) == (l.y * l.y) * k;
    assert l.z * (l.z * k) == (l.z * l.z) * k;
  }

  lemma Cancel(len: real, n: real, inv: real)
    requires 0.0 < len && len * len == n && inv == 1.0 / len
    ensures n * inv == len
  {
    assert inv * len == 1.0;
    assert n * inv == len * (len * inv);
  }

  lemma SquareMonotone(a: real, b: real)
    requires 0.0 <= a <= b
    ensures a * a <= b * b
  {
    assert a * a <= a * b;
    assert a * b <= b * b;
  }
}
