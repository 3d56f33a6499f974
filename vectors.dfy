/** Three-component vectors over the reals (the `Vec3<T>` template of p4.h).
    The source passes `Vec3` by const reference, never uses the `Vec3&` that
    its in-place operators (`normalize`, `+=`, `*=`) return, and applies those
    operators only to locals, so they are modelled as functions whose result
    the caller assigns back to the variable it was called on. */
module Vectors {

  /** The square root of the C library, which the model cannot define: it is a
      parameter of every operation that calls it, and this predicate says what
      is assumed of it. */
  ghost predicate IsSqrt(sqrt: real -> real) {
    forall a: real :: 0.0 <= a ==> 0.0 <= sqrt(a) && sqrt(a) * sqrt(a) == a
  }

  datatype Vec3 = Vec3(x: real, y: real, z: real) {

    /** `v * f`: every component times the scalar `f`. */
    function Scale(f: real): (r: Vec3)
      ensures r == Mul(Splat(f))
    {
      Vec3(x * f, y * f, z * f)
    }

    /** `v * w`: component-wise product (also what `v *= w` stores). */
    function Mul(v: Vec3): (r: Vec3)
    {
      Vec3(x * v.x, y * v.y, z * v.z)
    }

    function Dot(v: Vec3): real {
      x * v.x + y * v.y + z * v.z
    }

    /** `v - w`, component-wise. */
    function Sub(v: Vec3): (r: Vec3)
    {
      Vec3(x - v.x, y - v.y, z - v.z)
    }

    /** `v + w`, component-wise (also what `v += w` stores). */
    function Add(v: Vec3): (r: Vec3)
    {
      Vec3(x + v.x, y + v.y, z + v.z)
    }

    /** Unary minus: the additive inverse, of the same length. */
    function Neg(): (r: Vec3)
      ensures r.Add(this) == Zero()
      ensures r.Length2() == Length2()
    {
      Vec3(-x, -y, -z)
    }

    /** Squared length: the dot product of the vector with itself, never negative. */
    function Length2(): (r: real)
      ensures r == Dot(this)
      ensures 0.0 <= r
    {
      x * x + y * y + z * z
    }

    function Length(sqrt: real -> real): (r: real)
      requires IsSqrt(sqrt)
      ensures 0.0 <= r && r * r == Length2()
    {
      sqrt(Length2())
    }

    /** The value `normalize()` leaves in the vector: unchanged when the
        squared length is zero, otherwise every component is multiplied by the
        same factor `1 / sqrt(length2)`, which gives squared length one. */
    function Normalize(sqrt: real -> real): (r: Vec3)
      requires IsSqrt(sqrt)
      ensures Length2() == 0.0 ==> r == this
      ensures 0.0 < Length2() ==> r == Scale(1.0 / Length(sqrt)) && r.Length2() == 1.0
    {
      var nor2 := Length2();
      if 0.0 < nor2 then
        var invNor := 1.0 / sqrt(nor2);
        NormalizeHasUnitLength(this, sqrt);
        Vec3(x * invNor, y * invNor, z * invNor)
      else
        this
    }
  }

  /** `Vec3()`, the zero vector. */
  function Zero(): Vec3 {
    Vec3(0.0, 0.0, 0.0)
  }

  /** `Vec3(a)`: all three components equal to `a` (also the implicit
      conversion from a scalar that `v += f` and `Vec3 c = 0` use). */
  function Splat(a: real): Vec3 {
    Vec3(a, a, a)
  }

  /** `Vec3()` is the identity of `+` and `-`, and has length zero. */
  lemma ZeroIsIdentity(v: Vec3)
    ensures v.Add(Zero()) == v && v.Sub(Zero()) == v && Zero().Length2() == 0.0
  {
  }

  /** Scaling a vector of positive squared length by the inverse of its
      length gives a unit vector. */
  lemma NormalizeHasUnitLength(v: Vec3, sqrt: real -> real)
    requires IsSqrt(sqrt) && 0.0 < v.Length2()
    ensures 0.0 < sqrt(v.Length2())
    ensures v.Scale(1.0 / sqrt(v.Length2())).Length2() == 1.0
  {
    var n := v.Length2();
    var s := sqrt(n);
    assert s * s == n;
    assert 0.0 < s;
    var k := 1.0 / s;
    assert k * s == 1.0;
    var w := v.Scale(k);
    calc {
      w.Length2();
      (v.x * k) * (v.x * k) + (v.y * k) * (v.y * k) + (v.z * k) * (v.z * k);
      { assert (v.x * k) * (v.x * k) == (v.x * v.x) * (k * k);
        assert (v.y * k) * (v.y * k) == (v.y * v.y) * (k * k);
        assert (v.z * k) * (v.z * k) == (v.z * v.z) * (k * k); }
      n * (k * k);
      (s * s) * (k * k);
      { assert (s * s) * (k * k) == (k * s) * (k * s); }
      (k * s) * (k * s);
      1.0;
    }
  }

  /** The zero vector scales to itself and is orthogonal to every vector. */
  lemma ZeroAbsorbs(v: Vec3, f: real)
    ensures Zero().Scale(f) == Zero() && v.Dot(Zero()) == 0.0
  {
  }

  /** Only the zero vector has squared length zero. */
  lemma ZeroLengthIsZero(v: Vec3)
    ensures v.Length2() == 0.0 <==> v == Zero()
  {
    if v.Length2() == 0.0 {
      SquareIsNonnegative(v.x);
      SquareIsNonnegative(v.y);
      SquareIsNonnegative(v.z);
    }
  }

  lemma SquareIsNonnegative(a: real)
    ensures 0.0 <= a * a
    ensures a * a == 0.0 ==> a == 0.0
  {
    if a != 0.0 {
      assert a * a / a == a;
    }
  }

  /** `+` and `-` undo each other. */
  lemma AddSubCancel(v: Vec3, w: Vec3)
    ensures v.Add(w).Sub(w) == v && v.Sub(w).Add(w) == v
  {
  }

  /** A difference is the zero vector exactly when the operands are equal. */
  lemma SubZeroIffEqual(v: Vec3, w: Vec3)
    ensures v.Sub(w) == Zero() <==> v == w
  {
  }

  /** The components of the component-wise product sum to the dot product. */
  lemma MulSumsToDot(v: Vec3, w: Vec3)
    ensures var p := v.Mul(w); p.x + p.y + p.z == v.Dot(w)
  {
  }

  /** Unary minus undoes itself. */
  lemma NegNeg(v: Vec3)
    ensures v.Neg().Neg() == v
  {
  }

  /** Negating one side negates the dot product. */
  lemma DotNeg(v: Vec3, w: Vec3)
    ensures v.Dot(w.Neg()) == -v.Dot(w)
  {
    assert v.x * (-w.x) == -(v.x * w.x);
    assert v.y * (-w.y) == -(v.y * w.y);
    assert v.z * (-w.z) == -(v.z * w.z);
  }

  /** `dot` is symmetric. */
  lemma DotSymmetric(v: Vec3, w: Vec3)
    ensures v.Dot(w) == w.Dot(v)
  {
  }

  /** The component-wise product is commutative. */
  lemma MulCommutes(v: Vec3, w: Vec3)
    ensures v.Mul(w) == w.Mul(v)
  {
  }
}
