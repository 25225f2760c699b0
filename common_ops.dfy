/** The numeric primitives that the Euclidean 3-space kernel takes from its
    shared `commonOps` module, and the square root it takes from the math
    library. Neither module is part of this model: each primitive here is
    written from its documented contract. */
module CommonOps {

  /** The 2x2 determinant | a b ; c d | read column-wise as the kernel calls
      it: `determinant2(a, b, c, d) = a*d - b*c`. */
  function Determinant2(a: real, b: real, c: real, d: real): real
  {
    a * d - b * c
  }

  /** `are_dependent4`: the tuples (a1, b1, c1, d1) and (a2, b2, c2, d2) are
      linearly dependent, that is the 2x4 matrix they form has rank at most
      one. Written as "every 2x2 minor vanishes"; the lemmas below show that
      this is "one tuple is a scalar multiple of the other". */
  predicate AreDependent4(a1: real, b1: real, c1: real, d1: real,
                          a2: real, b2: real, c2: real, d2: real)
  {
    && Determinant2(a1, a2, b1, b2) == 0.0
    && Determinant2(a1, a2, c1, c2) == 0.0
    && Determinant2(a1, a2, d1, d2) == 0.0
    && Determinant2(b1, b2, c1, c2) == 0.0
    && Determinant2(b1, b2, d1, d2) == 0.0
    && Determinant2(c1, c2, d1, d2) == 0.0
  }

  /** A scalar multiple of a tuple depends on it, whatever the factor
      (negative and zero factors included). */
  lemma ScaledAreDependent4(a: real, b: real, c: real, d: real, k: real)
    ensures AreDependent4(a, b, c, d, k * a, k * b, k * c, k * d)
    ensures AreDependent4(k * a, k * b, k * c, k * d, a, b, c, d)
  {
  }

  /** Conversely, a tuple that depends on a non-zero tuple is a scalar
      multiple of it: the factor is read off a non-zero coordinate. */
  lemma {:induction false} DependentIsScaled(a1: real, b1: real, c1: real, d1: real,
                                             a2: real, b2: real, c2: real, d2: real)
    returns (k: real)
    requires AreDependent4(a1, b1, c1, d1, a2, b2, c2, d2)
    requires a1 != 0.0 || b1 != 0.0 || c1 != 0.0 || d1 != 0.0
    ensures a2 == k * a1 && b2 == k * b1 && c2 == k * c1 && d2 == k * d1
  {
    if a1 != 0.0 {
      k := a2 / a1;
      ScaleFromMinor(a1, a2, b1, b2, k);
      ScaleFromMinor(a1, a2, c1, c2, k);
      ScaleFromMinor(a1, a2, d1, d2, k);
    } else if b1 != 0.0 {
      k := b2 / b1;
      ScaleFromMinor(b1, b2, a1, a2, k);
      ScaleFromMinor(b1, b2, c1, c2, k);
      ScaleFromMinor(b1, b2, d1, d2, k);
    } else if c1 != 0.0 {
      k := c2 / c1;
      ScaleFromMinor(c1, c2, a1, a2, k);
      ScaleFromMinor(c1, c2, b1, b2, k);
      ScaleFromMinor(c1, c2, d1, d2, k);
    } else {
      k := d2 / d1;
      ScaleFromMinor(d1, d2, a1, a2, k);
      ScaleFromMinor(d1, d2, b1, b2, k);
      ScaleFromMinor(d1, d2, c1, c2, k);
    }
  }

  /** One vanishing minor with a non-zero pivot carries the pivot's ratio
      over to the other coordinate. */
  lemma ScaleFromMinor(p1: real, p2: real, q1: real, q2: real, k: real)
    requires p1 != 0.0 && k == p2 / p1
    requires p1 * q2 - p2 * q1 == 0.0 || q1 * p2 - q2 * p1 == 0.0
    ensures q2 == k * q1
  {
    assert p2 == k * p1;
    assert p1 * q2 == p1 * (k * q1);
  }

  /** The square root that `math.sqrt` stands for: non-negative, and its
      square gives back every non-negative argument. */
  ghost predicate ExactSqrt(sqrt: real -> real)
  {
    forall x: real :: 0.0 <= x ==> 0.0 <= sqrt(x) && sqrt(x) * sqrt(x) == x
  }

  /** An exact root is determined at every point: a non-negative number
      whose square is x is sqrt(x). */
  lemma SqrtUnique(sqrt: real -> real, x: real, r: real)
    requires ExactSqrt(sqrt)
    requires 0.0 <= r && r * r == x
    ensures sqrt(x) == r
  {
    var s := sqrt(x);
    assert 0.0 <= s && s * s == r * r;
    assert (s - r) * (s + r) == 0.0;
    assert s - r == 0.0 || s + r == 0.0;
  }
}
