/** Points and free vectors of Euclidean 3-space (`PointE3`, `VectorE3`).
    Coordinates are exact reals; the square root of the math library is a
    parameter `sqrt` of the operations that use it. */
module Euclidean3 {
  import opened CommonOps

  /** A position in affine 3-space. */
  datatype PointE3 = PointE3(x: real, y: real, z: real) {

    /** `p + v`: the point p translated by the vector v. */
    function Add(v: VectorE3): PointE3
    {
      PointE3(x + v.x, y + v.y, z + v.z)
    }

    /** `p - q`: the vector that carries q onto p. */
    function Sub(q: PointE3): VectorE3
    {
      VectorE3(x - q.x, y - q.y, z - q.z)
    }

    /** `distSqTo`: the squared Euclidean distance from this point to p. */
    function DistSq(p: PointE3): real
    {
      var dx := p.x - x;
      var dy := p.y - y;
      var dz := p.z - z;
      dx * dx + dy * dy + dz * dz
    }

    /** `distTo`: the square root of the squared distance. */
    function DistTo(p: PointE3, sqrt: real -> real): real
    {
      sqrt(DistSq(p))
    }

    /** `toVectorE3`: the position of this point relative to the origin. */
    function ToVector(): VectorE3
    {
      this.Sub(Origin)
    }
  }

  /** `PointE3.O`, the origin; also the point built with no arguments. */
  const Origin := PointE3(0.0, 0.0, 0.0)

  /** A free displacement in 3-space. */
  datatype VectorE3 = VectorE3(x: real, y: real, z: real) {

    /** Component-wise sum (`__add__`). */
    function Add(w: VectorE3): VectorE3
    {
      VectorE3(x + w.x, y + w.y, z + w.z)
    }

    /** `-v`: the additive inverse. */
    function Neg(): VectorE3
    {
      VectorE3(-x, -y, -z)
    }

    /** Component-wise difference (`__sub__`): the vector to add to w to
        obtain this one. */
    function Sub(w: VectorE3): VectorE3
    {
      VectorE3(x - w.x, y - w.y, z - w.z)
    }

    /** Dot product. */
    function Dot(w: VectorE3): real
    {
      x * w.x + y * w.y + z * w.z
    }

    /** `normSq`: the squared length. */
    function NormSq(): real
    {
      x * x + y * y + z * z
    }

    /** `v * a`: scaling by a number. */
    function Mul(a: real): VectorE3
    {
      VectorE3(x * a, y * a, z * a)
    }

    /** `a * v`: scaling with the number written first gives the same vector. */
    function RMul(a: real): (r: VectorE3)
      ensures r == this.Mul(a)
    {
      VectorE3(a * x, a * y, a * z)
    }

    /** `v / a`: undoes scaling by a; the source fails when a is zero. */
    function Div(a: real): (r: VectorE3)
      requires a != 0.0
      ensures r.Mul(a) == this
    {
      VectorE3(x / a, y / a, z / a)
    }

    /** `norm`: the square root of the squared length. */
    function Norm(sqrt: real -> real): real
    {
      sqrt(NormSq())
    }

    /** `normalize`: this vector divided by its norm; the source fails with
        a division error when the norm is zero. Scaling the result back by
        the norm gives this vector. */
    function Normalize(sqrt: real -> real): (r: VectorE3)
      requires Norm(sqrt) != 0.0
      ensures r.Mul(Norm(sqrt)) == this
    {
      var invNorm := 1.0 / Norm(sqrt);
      this.RMul(invNorm)
    }

    /** `cross`: the right-handed cross product, built from 2x2
        determinants. */
    function Cross(v: VectorE3): VectorE3
    {
      VectorE3(
         Determinant2(y, v.y, z, v.z),
        -Determinant2(x, v.x, z, v.z),
         Determinant2(x, v.x, y, v.y))
    }

    /** `toPointE3`: the point at this offset from the origin. */
    function ToPoint(): PointE3
    {
      PointE3(x, y, z)
    }
  }

  const Zero := VectorE3(0.0, 0.0, 0.0)
  /** `VectorE3.e1`, `e2`, `e3`: the standard basis. */
  const E1 := VectorE3(1.0, 0.0, 0.0)
  const E2 := VectorE3(0.0, 1.0, 0.0)
  const E3 := VectorE3(0.0, 0.0, 1.0)

  /** A product vanishes exactly when one of its factors does. */
  lemma ProductZero(a: real, b: real)
    ensures a * b == 0.0 <==> a == 0.0 || b == 0.0
  {
  }

  // Points and vectors

  /** Vector subtraction undoes vector addition, and `-v` is the additive
      inverse of v. */
  lemma VectorAddSubRoundTrip(v: VectorE3, w: VectorE3)
    ensures w.Add(v.Sub(w)) == v
    ensures v.Add(w).Sub(w) == v
    ensures v.Add(v.Neg()) == Zero
    ensures v.Sub(w) == v.Add(w.Neg())
  {
  }

  /** `toVectorE3` and `toPointE3` are inverse to each other. */
  lemma PointVectorRoundTrip(p: PointE3, v: VectorE3)
    ensures p.ToVector().ToPoint() == p
    ensures v.ToPoint().ToVector() == v
  {
  }

  /** Translating a point and subtracting points invert each other. */
  lemma PointAddSubRoundTrip(p: PointE3, q: PointE3, v: VectorE3)
    ensures p.Add(q.Sub(p)) == q
    ensures p.Add(v).Sub(p) == v
  {
  }

  /** The squared length is the dot product of a vector with itself; it is
      non-negative, and zero exactly for the zero vector. */
  lemma {:induction false} NormSqPositive(v: VectorE3)
    ensures v.NormSq() == v.Dot(v)
    ensures v.NormSq() >= 0.0
    ensures v.NormSq() == 0.0 <==> v == Zero
  {
    if v.NormSq() == 0.0 {
      assert v.x * v.x == 0.0 && v.y * v.y == 0.0 && v.z * v.z == 0.0;
      ProductZero(v.x, v.x);
      ProductZero(v.y, v.y);
      ProductZero(v.z, v.z);
    }
  }

  /** Scaling a vector by k scales its squared length by k * k. */
  lemma {:induction false} NormSqMul(v: VectorE3, k: real)
    ensures v.Mul(k).NormSq() == k * k * v.NormSq()
  {
    assert (v.x * k) * (v.x * k) == k * k * (v.x * v.x);
    assert (v.y * k) * (v.y * k) == k * k * (v.y * v.y);
    assert (v.z * k) * (v.z * k) == k * k * (v.z * v.z);
  }

  /** Squared distance is the squared length of the difference, in either
      order. */
  lemma DistSqIsNormSq(p: PointE3, q: PointE3)
    ensures p.DistSq(q) == q.Sub(p).NormSq()
    ensures p.DistSq(q) == p.Sub(q).NormSq()
  {
  }

  /** Squared distance is non-negative, zero exactly between equal points,
      and symmetric. */
  lemma {:induction false} DistSqMetric(p: PointE3, q: PointE3)
    ensures p.DistSq(q) >= 0.0
    ensures p.DistSq(q) == 0.0 <==> p == q
    ensures p.DistSq(q) == q.DistSq(p)
  {
    var d := p.Sub(q);
    DistSqIsNormSq(p, q);
    DistSqIsNormSq(q, p);
    NormSqPositive(d);
    SubZero(p, q);
  }

  /** Two points coincide exactly when their difference is the zero vector. */
  lemma SubZero(p: PointE3, q: PointE3)
    ensures p.Sub(q) == Zero <==> p == q
  {
    if p.Sub(q) == Zero {
      assert p.x == q.x && p.y == q.y && p.z == q.z;
    }
  }

  /** A root that maps zero to zero makes the distance from a point to
      itself exactly zero. */
  lemma DistToSelf(p: PointE3, sqrt: real -> real)
    requires sqrt(0.0) == 0.0
    ensures p.DistTo(p, sqrt) == 0.0
  {
  }

  // Vector algebra

  /** Addition is commutative and associative, with the zero vector as unit. */
  lemma AddAlgebra(a: VectorE3, b: VectorE3, c: VectorE3)
    ensures a.Add(b) == b.Add(a)
    ensures a.Add(b).Add(c) == a.Add(b.Add(c))
    ensures a.Add(Zero) == a
  {
  }

  /** The dot product is symmetric and bilinear. */
  lemma DotBilinear(a: VectorE3, b: VectorE3, c: VectorE3, k: real)
    ensures a.Dot(b) == b.Dot(a)
    ensures a.Add(b).Dot(c) == a.Dot(c) + b.Dot(c)
    ensures a.Mul(k).Dot(b) == k * a.Dot(b)
  {
  }

  /** With an exact root, a normalized vector has unit length. */
  lemma {:induction false} NormalizeUnitLength(v: VectorE3, sqrt: real -> real)
    requires ExactSqrt(sqrt)
    requires v != Zero
    ensures v.Norm(sqrt) != 0.0
    ensures v.Normalize(sqrt).NormSq() == 1.0
  {
    var n := v.Norm(sqrt);
    NormSqPositive(v);
    assert n * n == v.NormSq();
    ProductZero(n, n);
    var u := v.Normalize(sqrt);
    assert u.NormSq() * (n * n) == v.NormSq() by {
      assert u.Mul(n) == v;
    }
  }

  /** The zero vector has norm zero under any root that maps zero to zero,
      so it cannot be normalized. */
  lemma ZeroHasNoNormal(sqrt: real -> real)
    requires sqrt(0.0) == 0.0
    ensures Zero.Norm(sqrt) == 0.0
  {
  }

  /** The cross product is orthogonal to both of its factors. */
  lemma {:induction false} CrossOrthogonal(a: VectorE3, b: VectorE3)
    ensures a.Cross(b).Dot(a) == 0.0
    ensures a.Cross(b).Dot(b) == 0.0
  {
  }

  /** The cross product is anti-commutative, and vanishes on parallel
      factors. */
  lemma CrossAntiCommutative(a: VectorE3, b: VectorE3, k: real)
    ensures a.Cross(b) == b.Cross(a).Neg()
    ensures a.Cross(a.Mul(k)) == Zero
  {
  }

  /** The basis is right-handed: e1 x e2 = e3. */
  lemma CrossBasis()
    ensures E1.Cross(E2) == E3
  {
  }

  /** Lagrange's identity: |a x b|^2 = |a|^2 |b|^2 - (a . b)^2; hence the
      Cauchy-Schwarz inequality (a . b)^2 <= |a|^2 |b|^2. */
  lemma {:induction false} Lagrange(a: VectorE3, b: VectorE3)
    ensures a.Cross(b).NormSq() == a.NormSq() * b.NormSq() - a.Dot(b) * a.Dot(b)
    ensures a.Dot(b) * a.Dot(b) <= a.NormSq() * b.NormSq()
  {
    var c := a.Cross(b);
    assert c.x == a.y * b.z - a.z * b.y;
    assert c.y == a.z * b.x - a.x * b.z;
    assert c.z == a.x * b.y - a.y * b.x;
  }
}
