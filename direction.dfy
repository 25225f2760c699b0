/** Directions of Euclidean 3-space (`DirectionE3`): a defining vector whose
    normalised form is computed on first use and kept in a cache. */
module Directions {
  import opened CommonOps
  import opened Euclidean3

  datatype Option<T> = None | Some(value: T)

  /** The unit vector a direction stands for: the defining vector divided by
      its norm, or the zero vector when the norm is zero (a degenerate
      direction, which is not an error). */
  function Unit(vec: VectorE3, sqrt: real -> real): (u: VectorE3)
    ensures vec.Norm(sqrt) == 0.0 ==> u == Zero
    ensures vec.Norm(sqrt) != 0.0 ==> u.Mul(vec.Norm(sqrt)) == vec
  {
    var norm := vec.Norm(sqrt);
    if norm == 0.0 then
      VectorE3(0.0, 0.0, 0.0)
    else
      var invd := 1.0 / norm;
      VectorE3(vec.x * invd, vec.y * invd, vec.z * invd)
  }

  class DirectionE3 {
    /** The defining vector, never changed after construction. */
    const vec: VectorE3
    /** The cached unit vector, empty until first asked for. */
    var cache: Option<VectorE3>

    /** A filled cache holds the unit vector of `vec`. */
    ghost predicate Valid(sqrt: real -> real)
      reads this
    {
      cache.Some? ==> cache.value == Unit(vec, sqrt)
    }

    constructor (vec: VectorE3)
      ensures this.vec == vec && cache == None
    {
      this.vec := vec;
      cache := None;
    }

    /** `fromDirectionE3`: a copy with the same defining vector and an empty
        cache. */
    constructor FromDirection(d: DirectionE3)
      ensures vec == d.vec && cache == None
    {
      vec := d.vec;
      cache := None;
    }

    /** `v`: the unit vector, computed and stored on the first call; later
        calls return the stored value and change nothing. */
    method V(sqrt: real -> real) returns (u: VectorE3)
      requires Valid(sqrt)
      modifies this
      ensures Valid(sqrt)
      ensures u == Unit(vec, sqrt) && cache == Some(u)
      ensures old(cache).Some? ==> cache == old(cache)
    {
      if cache == None {
        var norm := vec.Norm(sqrt);
        if norm == 0.0 {
          cache := Some(VectorE3(0.0, 0.0, 0.0));
        } else {
          var invd := 1.0 / norm;
          cache := Some(VectorE3(vec.x * invd, vec.y * invd, vec.z * invd));
        }
      }
      u := cache.value;
    }

    /** `endPoint`: the tip of the unit vector placed at the origin. */
    method EndPoint(sqrt: real -> real) returns (p: PointE3)
      requires Valid(sqrt)
      modifies this
      ensures Valid(sqrt) && cache == Some(Unit(vec, sqrt))
      ensures p == Unit(vec, sqrt).ToPoint()
    {
      var u := V(sqrt);
      p := PointE3(u.x, u.y, u.z);
    }

    /** `+`: a new direction defined by the sum of the two unit vectors. */
    method Add(other: DirectionE3, sqrt: real -> real) returns (r: DirectionE3)
      requires Valid(sqrt) && other.Valid(sqrt)
      modifies this, other
      ensures Valid(sqrt) && cache == Some(Unit(vec, sqrt))
      ensures other.Valid(sqrt) && other.cache == Some(Unit(other.vec, sqrt))
      ensures fresh(r) && r.cache == None
      ensures r.vec == Unit(vec, sqrt).Add(Unit(other.vec, sqrt))
    {
      var u := V(sqrt);
      var w := other.V(sqrt);
      r := new DirectionE3(u.Add(w));
    }

    /** `-`: a new direction defined by the difference of the unit vectors. */
    method Sub(other: DirectionE3, sqrt: real -> real) returns (r: DirectionE3)
      requires Valid(sqrt) && other.Valid(sqrt)
      modifies this, other
      ensures Valid(sqrt) && cache == Some(Unit(vec, sqrt))
      ensures other.Valid(sqrt) && other.cache == Some(Unit(other.vec, sqrt))
      ensures fresh(r) && r.cache == None
      ensures r.vec == Unit(vec, sqrt).Sub(Unit(other.vec, sqrt))
    {
      var u := V(sqrt);
      var w := other.V(sqrt);
      r := new DirectionE3(u.Sub(w));
    }

    /** Unary `-`: the opposite direction, built from the negated defining
        vector without filling this direction's cache. */
    method Neg() returns (r: DirectionE3)
      ensures fresh(r) && r.cache == None
      ensures r.vec == vec.Neg()
    {
      r := new DirectionE3(vec.Neg());
    }

    /** `dot`: the dot product of the two unit vectors. */
    method Dot(other: DirectionE3, sqrt: real -> real) returns (r: real)
      requires Valid(sqrt) && other.Valid(sqrt)
      modifies this, other
      ensures Valid(sqrt) && cache == Some(Unit(vec, sqrt))
      ensures other.Valid(sqrt) && other.cache == Some(Unit(other.vec, sqrt))
      ensures r == Unit(vec, sqrt).Dot(Unit(other.vec, sqrt))
    {
      var u := V(sqrt);
      var w := other.V(sqrt);
      r := u.Dot(w);
    }

    /** `cross`: a new direction defined by the cross product of the unit
        vectors. */
    method Cross(other: DirectionE3, sqrt: real -> real) returns (r: DirectionE3)
      requires Valid(sqrt) && other.Valid(sqrt)
      modifies this, other
      ensures Valid(sqrt) && cache == Some(Unit(vec, sqrt))
      ensures other.Valid(sqrt) && other.cache == Some(Unit(other.vec, sqrt))
      ensures fresh(r) && r.cache == None
      ensures r.vec == Unit(vec, sqrt).Cross(Unit(other.vec, sqrt))
    {
      var u := V(sqrt);
      var w := other.V(sqrt);
      r := new DirectionE3(u.Cross(w));
    }

    /** `==`: two directions are equal when their unit vectors are; a
        direction compared with itself is equal without computing anything. */
    method Equals(other: DirectionE3, sqrt: real -> real) returns (b: bool)
      requires Valid(sqrt) && other.Valid(sqrt)
      modifies this, other
      ensures Valid(sqrt) && other.Valid(sqrt)
      ensures this != other ==> cache == Some(Unit(vec, sqrt)) && other.cache == Some(Unit(other.vec, sqrt))
      ensures this == other ==> cache == old(cache)
      ensures b <==> Unit(vec, sqrt) == Unit(other.vec, sqrt)
    {
      if this == other {
        b := true;
      } else {
        var u := V(sqrt);
        var w := other.V(sqrt);
        b := u == w;
      }
    }
  }

  /** Where the norm is non-zero the unit vector is `normalize`'s result;
      where it is zero `normalize` fails and the direction is the zero
      vector instead. */
  lemma UnitIsNormalize(vec: VectorE3, sqrt: real -> real)
    requires vec.Norm(sqrt) != 0.0
    ensures Unit(vec, sqrt) == vec.Normalize(sqrt)
  {
  }

  /** With an exact square root, a non-zero defining vector gives a unit
      vector of length one. */
  lemma {:induction false} UnitLength(vec: VectorE3, sqrt: real -> real)
    requires ExactSqrt(sqrt)
    requires vec != Zero
    ensures Unit(vec, sqrt).NormSq() == 1.0
  {
    NormalizeUnitLength(vec, sqrt);
    UnitIsNormalize(vec, sqrt);
  }

  /** The zero vector defines the degenerate direction. */
  lemma UnitOfZero(sqrt: real -> real)
    requires sqrt(0.0) == 0.0
    ensures Unit(Zero, sqrt) == Zero
  {
  }

  /** Negating the defining vector negates the unit vector. */
  lemma {:induction false} UnitOfNeg(vec: VectorE3, sqrt: real -> real)
    ensures Unit(vec.Neg(), sqrt) == Unit(vec, sqrt).Neg()
  {
    assert vec.Neg().NormSq() == vec.NormSq();
  }

  /** With an exact square root, a vector of length one is its own unit
      vector. */
  lemma {:induction false} UnitOfUnit(u: VectorE3, sqrt: real -> real)
    requires ExactSqrt(sqrt)
    requires u.NormSq() == 1.0
    ensures Unit(u, sqrt) == u
  {
    SqrtUnique(sqrt, 1.0, 1.0);
    assert u.Norm(sqrt) == 1.0;
  }

  /** With an exact square root, normalising a unit vector again changes
      nothing. */
  lemma {:induction false} UnitIdempotent(vec: VectorE3, sqrt: real -> real)
    requires ExactSqrt(sqrt)
    ensures Unit(Unit(vec, sqrt), sqrt) == Unit(vec, sqrt)
  {
    SqrtUnique(sqrt, 0.0, 0.0);
    if vec == Zero {
      assert vec.NormSq() == 0.0;
    } else {
      UnitLength(vec, sqrt);
      UnitOfUnit(Unit(vec, sqrt), sqrt);
    }
  }

  /** With an exact square root, scaling the defining vector by a positive
      factor does not change the direction. */
  lemma {:induction false} UnitScaleInvariant(vec: VectorE3, k: real, sqrt: real -> real)
    requires ExactSqrt(sqrt)
    requires k > 0.0
    ensures Unit(vec.Mul(k), sqrt) == Unit(vec, sqrt)
  {
    var m := vec.Mul(k);
    var n := vec.Norm(sqrt);
    NormScale(vec, k, sqrt);
    assert m.Norm(sqrt) == k * n;
    ProductZero(k, n);
    if n != 0.0 {
      CancelScale(vec.x, k, n);
      CancelScale(vec.y, k, n);
      CancelScale(vec.z, k, n);
    }
  }

  /** With an exact square root, the norm of k v is k times the norm of v
      for k >= 0. */
  lemma {:induction false} NormScale(vec: VectorE3, k: real, sqrt: real -> real)
    requires ExactSqrt(sqrt)
    requires k >= 0.0
    ensures vec.Mul(k).Norm(sqrt) == k * vec.Norm(sqrt)
  {
    var n := vec.Norm(sqrt);
    NormSqMul(vec, k);
    NormSqPositive(vec);
    assert 0.0 <= n && n * n == vec.NormSq();
    SquareOfProduct(k, n, vec.NormSq());
    SqrtUnique(sqrt, vec.Mul(k).NormSq(), k * n);
  }

  /** (k n)^2 = k^2 n^2, with n^2 named s. */
  lemma SquareOfProduct(k: real, n: real, s: real)
    requires k >= 0.0 && n >= 0.0 && n * n == s
    ensures 0.0 <= k * n && (k * n) * (k * n) == k * k * s
  {
  }

  /** Dividing a k-fold coordinate by a k-fold norm. */
  lemma CancelScale(a: real, k: real, n: real)
    requires k != 0.0 && n != 0.0
    ensures (a * k) * (1.0 / (k * n)) == a * (1.0 / n)
  {
  }

  /** `DirectionE3.e1`, `e2`, `e3`: with an exact square root the basis
      vectors are their own unit vectors. */
  lemma BasisDirections(e: VectorE3, sqrt: real -> real)
    requires ExactSqrt(sqrt)
    requires e == E1 || e == E2 || e == E3
    ensures Unit(e, sqrt) == e
  {
    assert e.NormSq() == 1.0;
    UnitOfUnit(e, sqrt);
  }
}
