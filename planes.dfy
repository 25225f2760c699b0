/** Affine planes of Euclidean 3-space (`PlaneE3`), held as a normal N and an
    offset d: the plane is the set of points X with N . (X - O) + d == 0. */
module Planes {
  import opened CommonOps
  import opened Euclidean3

  datatype PlaneE3 = PlaneE3(N: VectorE3, d: real) {

    /** The point p satisfies the plane's equation. */
    predicate Contains(p: PointE3)
    {
      N.Dot(p.ToVector()) + d == 0.0
    }

    /** `pointE3ClosestOrigin`: the foot of the perpendicular from the origin,
        -N * (d / |N|^2). The source divides by |N|^2 and so fails for a zero
        normal. The result lies on the plane and on the line through the
        origin along N. */
    function ClosestToOrigin(): (r: PointE3)
      requires N.NormSq() != 0.0
      ensures Contains(r)
      ensures r.ToVector().Cross(N) == Zero
    {
      var fact := d / N.NormSq();
      PointE3(-N.x * fact, -N.y * fact, -N.z * fact)
    }

    /** `__eq__`: equality of planes is projective, the coefficient tuples
        (N.x, N.y, N.z, d) of the two planes are linearly dependent. */
    predicate SameAs(other: PlaneE3)
    {
      AreDependent4(N.x, N.y, N.z, d, other.N.x, other.N.y, other.N.z, other.d)
    }

    /** The same plane with every coefficient multiplied by k. */
    function Scale(k: real): PlaneE3
    {
      PlaneE3(N.Mul(k), d * k)
    }
  }

  /** The plane built with no arguments: normal e3 and offset 0, that is the
      plane z == 0. */
  function DefaultPlane(): (r: PlaneE3)
    ensures forall p: PointE3 :: r.Contains(p) <==> p.z == 0.0
  {
    PlaneE3(VectorE3(0.0, 0.0, 1.0), 0.0)
  }

  /** `fromThreePointE3`: normal (p2 - p1) x (p3 - p1) and offset
      (O - p1) . N. The plane passes through all three points; collinear
      points give a zero normal, which the source does not reject. */
  function FromThreePoints(p1: PointE3, p2: PointE3, p3: PointE3): (r: PlaneE3)
    ensures r.Contains(p1) && r.Contains(p2) && r.Contains(p3)
  {
    var N := p2.Sub(p1).Cross(p3.Sub(p1));
    PlaneE3(N, Origin.Sub(p1).Dot(N))
  }

  /** The origin is on a plane exactly when the offset is zero. */
  lemma ContainsOrigin(pl: PlaneE3)
    ensures pl.Contains(Origin) <==> pl.d == 0.0
  {
  }

  /** Moving a point of the plane along a direction orthogonal to the normal
      stays on the plane. */
  lemma {:induction false} ContainsTranslate(pl: PlaneE3, p: PointE3, w: VectorE3)
    requires pl.Contains(p)
    requires pl.N.Dot(w) == 0.0
    ensures pl.Contains(p.Add(w))
  {
    var P := p.ToVector();
    assert p.Add(w).ToVector() == P.Add(w);
    DotBilinear(P, w, pl.N, 0.0);
    DotBilinear(pl.N, P, w, 0.0);
    DotBilinear(pl.N, P.Add(w), w, 0.0);
  }

  /** The plane through three points contains every affine combination
      p1 + s (p2 - p1) + t (p3 - p1) of them. */
  lemma {:induction false} FromThreePointsSpan(p1: PointE3, p2: PointE3, p3: PointE3, s: real, t: real)
    ensures FromThreePoints(p1, p2, p3).Contains(p1.Add(p2.Sub(p1).Mul(s)).Add(p3.Sub(p1).Mul(t)))
  {
    var pl := FromThreePoints(p1, p2, p3);
    var a, b := p2.Sub(p1), p3.Sub(p1);
    var N := pl.N;
    CrossOrthogonal(a, b);
    DotBilinear(a, N, N, s);
    DotBilinear(b, N, N, t);
    DotBilinear(N, a.Mul(s), N, 0.0);
    DotBilinear(N, b.Mul(t), N, 0.0);
    ContainsTranslate(pl, p1, a.Mul(s));
    ContainsTranslate(pl, p1.Add(a.Mul(s)), b.Mul(t));
  }

  /** Collinear points (one of p2 - p1, p3 - p1 a multiple of the other)
      give the zero normal. */
  lemma CollinearIsDegenerate(p1: PointE3, p2: PointE3, p3: PointE3, k: real)
    requires p3.Sub(p1) == p2.Sub(p1).Mul(k) || p2.Sub(p1) == p3.Sub(p1).Mul(k)
    ensures FromThreePoints(p1, p2, p3).N == Zero
  {
    var a, b := p2.Sub(p1), p3.Sub(p1);
    if b == a.Mul(k) {
      CrossAntiCommutative(a, b, k);
    } else {
      CrossAntiCommutative(b, a, k);
      assert b.Cross(a) == Zero;
      CrossAntiCommutative(a, b, k);
      assert a.Cross(b) == Zero.Neg();
    }
  }

  /** The foot of the perpendicular is the point of the plane nearest to the
      origin. */
  lemma {:induction false} ClosestToOriginIsClosest(pl: PlaneE3, X: PointE3)
    requires pl.N.NormSq() != 0.0
    requires pl.Contains(X)
    ensures Origin.DistSq(pl.ClosestToOrigin()) <= Origin.DistSq(X)
  {
    var N, d := pl.N, pl.d;
    var n := N.NormSq();
    var fact := d / n;
    var r := pl.ClosestToOrigin();
    var v := X.ToVector();
    NormSqPositive(N);
    assert n > 0.0;
    // |r|^2 = fact^2 |N|^2
    assert r.ToVector() == N.Mul(-fact);
    NormSqMul(N, -fact);
    DistSqIsNormSq(r, Origin);
    DistSqIsNormSq(X, Origin);
    DistSqMetric(Origin, r);
    DistSqMetric(Origin, X);
    assert Origin.DistSq(r) == fact * fact * n;
    assert Origin.DistSq(X) == v.NormSq();
    // Cauchy-Schwarz: d^2 = (N . X)^2 <= |N|^2 |X|^2
    Lagrange(N, v);
    assert N.Dot(v) == -d;
    assert d * d <= n * v.NormSq();
    assert d == fact * n;
    ScaleInequality(fact * fact * n, v.NormSq(), n);
  }

  /** Dividing both sides of an inequality by a positive number. */
  lemma ScaleInequality(a: real, b: real, n: real)
    requires n > 0.0 && a * n <= n * b
    ensures a <= b
  {
  }

  /** The plane x + y + z == 1 is nearest to the origin at (1/3, 1/3, 1/3). */
  lemma ClosestToOriginExample()
    ensures PlaneE3(VectorE3(1.0, 1.0, 1.0), -1.0).ClosestToOrigin() == PointE3(1.0 / 3.0, 1.0 / 3.0, 1.0 / 3.0)
  {
  }

  // Projective equality

  /** Plane equality is reflexive and symmetric, and a plane equals every
      multiple of itself, the negated plane included. */
  lemma SameAsProjective(p: PlaneE3, q: PlaneE3, k: real)
    ensures p.SameAs(p)
    ensures p.SameAs(q) ==> q.SameAs(p)
    ensures p.SameAs(p.Scale(k)) && p.Scale(k).SameAs(p)
  {
    ScaledAreDependent4(p.N.x, p.N.y, p.N.z, p.d, 1.0);
    ScaledAreDependent4(p.N.x, p.N.y, p.N.z, p.d, k);
  }

  /** Two equal planes with non-zero normals have the same points. */
  lemma {:induction false} SameAsSamePoints(p: PlaneE3, q: PlaneE3, X: PointE3)
    requires p.SameAs(q)
    requires p.N != Zero && q.N != Zero
    ensures p.Contains(X) <==> q.Contains(X)
  {
    var k := DependentIsScaled(p.N.x, p.N.y, p.N.z, p.d, q.N.x, q.N.y, q.N.z, q.d);
    assert q.N == p.N.Mul(k);
    DotBilinear(p.N, X.ToVector(), X.ToVector(), k);
    assert q.N.Dot(X.ToVector()) + q.d == k * (p.N.Dot(X.ToVector()) + p.d);
    ProductZero(k, p.N.Dot(X.ToVector()) + p.d);
  }

  /** The plane z == 0 equals its multiple by -2, but not the plane z == -1. */
  lemma SameAsExamples()
    ensures PlaneE3(VectorE3(0.0, 0.0, 1.0), 0.0).SameAs(PlaneE3(VectorE3(0.0, 0.0, -2.0), 0.0))
    ensures !PlaneE3(VectorE3(0.0, 0.0, 1.0), 0.0).SameAs(PlaneE3(VectorE3(0.0, 0.0, 1.0), 1.0))
  {
  }
}
