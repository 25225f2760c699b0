# Euclidean 3-space kernel of koebe

This project models the Euclidean 3-space geometry kernel of the koebe
library (`koebe/geometries/euclidean3.py`) in Dafny and proves the properties
its users rely on. Coordinates are exact reals.

- **Points and vectors** (`Euclidean3`): `PointE3` and `VectorE3` are
  immutable values. They come with translation, subtraction, squared
  distance, scaling, dot and cross products, norms and normalisation, and
  the constants `PointE3.O` and `VectorE3.e1`, `e2`, `e3`.
- **Directions** (`Directions`): `DirectionE3` is a class. It holds a fixed
  defining vector and a lazily filled cache of the unit vector (the `v`
  property). Its `+`, `-`, `dot`, `cross` and `==` read the cached unit
  vectors; `+`, `-` and `cross` return new directions with an empty cache.
  Unary `-` negates the defining vector without touching the cache.
- **Planes** (`Planes`): a `PlaneE3` is the set of points X with
  N · (X − O) + d = 0. The module models:
  - the default plane and the plane through three points
  - the point of the plane nearest to the origin
  - the projective equality of planes: two planes are equal when their
    coefficient tuples are linearly dependent
- **Dominant axes** (`Dominance`): `dominant` and `least_dominant` classify a
  vector by the signed coordinate axis of largest or smallest magnitude. The
  model keeps their exact tie-breaking and zero-sign rules.
- **Shared primitives** (`CommonOps`): the kernel imports `determinant2` and
  `are_dependent4` from `koebe/geometries/commonOps.py`, and `sqrt` from the
  math library. `commonOps.py` is not part of this model, so both functions
  are written from their contracts.
  - `Determinant2(a, b, c, d) = a*d − b*c`. This is the only reading under
    which `cross` is right-handed (e1 × e2 = e3).
  - `AreDependent4` says that every 2×2 minor vanishes. `DependentIsScaled`
    and `ScaledAreDependent4` prove that this is the same as "one tuple is a
    multiple of the other".
  - The square root is a parameter `sqrt: real -> real` of every operation
    that uses it. Properties that need a true square root assume it through
    the predicate `ExactSqrt`.

**Zero vector.** `dominant(0,0,0)` returns `E3_NEGX`: the first test
`dxabs >= dyabs and dxabs >= dzabs` already holds for the zero vector, and
`0 > 0` is false. `Dominance.DominanceExamples` states
`Dominant(0,0,0) == NegX`.

## Model

| member | source | states |
|---|---|---|
| Euclidean3.PointAddSubRoundTrip | koebe/geometries/euclidean3.py:27-31 | translating p by q − p gives q, and (p + v) − p gives back v |
| Euclidean3.VectorAddSubRoundTrip | koebe/geometries/euclidean3.py:74-90 | vector subtraction undoes addition, −v is the additive inverse, and v − w = v + (−w) |
| Euclidean3.AddAlgebra | koebe/geometries/euclidean3.py:74-75 | vector addition is commutative and associative, with the zero vector as unit |
| Euclidean3.VectorE3.RMul | koebe/geometries/euclidean3.py:83-84 | a * v (`__rmul__`) is the same vector as v * a (`__mul__`) |
| Euclidean3.VectorE3.Div | koebe/geometries/euclidean3.py:86-87 | for a ≠ 0, multiplying v / a by a gives back v |
| Euclidean3.PointVectorRoundTrip | koebe/geometries/euclidean3.py:42-43 | `toVectorE3` and `toPointE3` are inverse to each other |
| Euclidean3.DistSqIsNormSq | koebe/geometries/euclidean3.py:33-37 | the squared distance from p to q is the squared length of q − p, and of p − q |
| Euclidean3.DistSqMetric | koebe/geometries/euclidean3.py:33-37 | the squared distance is non-negative, zero exactly when the points are equal, and symmetric |
| Euclidean3.SubZero | koebe/geometries/euclidean3.py:30-31 | p − q is the zero vector exactly when p = q |
| Euclidean3.DistToSelf | koebe/geometries/euclidean3.py:39-40 | if the root maps 0 to 0, the distance from a point to itself is 0 |
| Euclidean3.NormSqPositive | koebe/geometries/euclidean3.py:92-96 | normSq equals v · v, is non-negative, and is zero exactly for the zero vector |
| Euclidean3.NormSqMul | koebe/geometries/euclidean3.py:80-96 | scaling by k scales the squared length by k² |
| Euclidean3.DotBilinear | koebe/geometries/euclidean3.py:92-93 | the dot product is symmetric, additive and homogeneous |
| Euclidean3.VectorE3.Normalize | koebe/geometries/euclidean3.py:101-103 | when the norm is non-zero, the result scaled back by the norm is v |
| Euclidean3.NormalizeUnitLength | koebe/geometries/euclidean3.py:98-103 | with an exact root, a non-zero vector has a non-zero norm and normalises to squared length 1 |
| Euclidean3.ZeroHasNoNormal | koebe/geometries/euclidean3.py:98-103 | the zero vector has norm 0, so `normalize` divides by zero on it |
| Euclidean3.CrossOrthogonal | koebe/geometries/euclidean3.py:105-110 | a × b is orthogonal to a and to b |
| Euclidean3.CrossAntiCommutative | koebe/geometries/euclidean3.py:105-110 | a × b = −(b × a), and a × (k a) = 0 |
| Euclidean3.CrossBasis | koebe/geometries/euclidean3.py:262-264 | the basis constants are right-handed: e1 × e2 = e3 |
| Euclidean3.Lagrange | koebe/geometries/euclidean3.py:105-110 | \|a × b\|² = \|a\|²\|b\|² − (a · b)², hence Cauchy–Schwarz |
| Directions.Unit | koebe/geometries/euclidean3.py:141-150 | a zero norm gives the zero vector; otherwise the unit vector times the norm is the defining vector |
| Directions.DirectionE3.constructor | koebe/geometries/euclidean3.py:128-130 | a new direction keeps its defining vector and starts with an empty cache |
| Directions.DirectionE3.FromDirection | koebe/geometries/euclidean3.py:137-139 | a copy has the same defining vector and an empty cache |
| Directions.DirectionE3.V | koebe/geometries/euclidean3.py:141-150 | returns the unit vector of the defining vector and leaves it in the cache; an already filled cache is returned unchanged |
| Directions.DirectionE3.EndPoint | koebe/geometries/euclidean3.py:151-153 | the point at the unit vector from the origin; fills the cache |
| Directions.DirectionE3.Add | koebe/geometries/euclidean3.py:155-156 | a fresh direction with an empty cache, defined by the sum of both unit vectors; fills both caches |
| Directions.DirectionE3.Sub | koebe/geometries/euclidean3.py:158-159 | the same for the difference of the unit vectors |
| Directions.DirectionE3.Neg | koebe/geometries/euclidean3.py:161-162 | a fresh direction defined by the negated defining vector; the receiver's cache is not touched |
| Directions.DirectionE3.Dot | koebe/geometries/euclidean3.py:164-165 | the dot product of the two unit vectors; fills both caches |
| Directions.DirectionE3.Cross | koebe/geometries/euclidean3.py:167-168 | a fresh direction defined by the cross product of the unit vectors |
| Directions.DirectionE3.Equals | koebe/geometries/euclidean3.py:170-171 | true exactly when the unit vectors agree; comparing a direction with itself computes nothing |
| Directions.UnitIsNormalize | koebe/geometries/euclidean3.py:141-150 | when the norm is non-zero, the cached unit vector is `normalize`'s result |
| Directions.UnitLength | koebe/geometries/euclidean3.py:141-150 | with an exact root, a non-zero defining vector gives a vector of squared length 1 |
| Directions.UnitOfZero | koebe/geometries/euclidean3.py:144-146 | the zero defining vector gives the degenerate zero direction, not an error |
| Directions.UnitOfNeg | koebe/geometries/euclidean3.py:161-162 | negating the defining vector negates the unit vector |
| Directions.UnitOfUnit | koebe/geometries/euclidean3.py:141-150 | with an exact root, a vector of length 1 is its own unit vector |
| Directions.UnitIdempotent | koebe/geometries/euclidean3.py:141-150 | with an exact root, normalising a unit vector again changes nothing |
| Directions.NormScale | koebe/geometries/euclidean3.py:98-99 | with an exact root and k ≥ 0, the norm of k v is k times the norm of v |
| Directions.UnitScaleInvariant | koebe/geometries/euclidean3.py:170-171 | with an exact root, scaling the defining vector by k > 0 gives an equal direction |
| Directions.BasisDirections | koebe/geometries/euclidean3.py:266-268 | with an exact root, `DirectionE3.e1`, `e2`, `e3` have the basis vectors as unit vectors |
| Planes.DefaultPlane | koebe/geometries/euclidean3.py:183-185 | the plane built with default arguments contains exactly the points with z = 0 |
| Planes.ContainsOrigin | koebe/geometries/euclidean3.py:183-185 | a plane passes through the origin exactly when d = 0 |
| Planes.FromThreePoints | koebe/geometries/euclidean3.py:196-198 | the plane built from three points contains all three |
| Planes.FromThreePointsSpan | koebe/geometries/euclidean3.py:196-198 | it also contains every affine combination p1 + s(p2 − p1) + t(p3 − p1) |
| Planes.CollinearIsDegenerate | koebe/geometries/euclidean3.py:196-198 | collinear points (either of p2 − p1, p3 − p1 a multiple of the other, so p1 = p2 included) give the zero normal, which the code does not reject |
| Planes.PlaneE3.ClosestToOrigin | koebe/geometries/euclidean3.py:200-204 | for a non-zero normal, the result lies on the plane and on the line through the origin along N |
| Planes.ClosestToOriginIsClosest | koebe/geometries/euclidean3.py:200-204 | no point of the plane is nearer to the origin than that result |
| Planes.ClosestToOriginExample | koebe/geometries/euclidean3.py:200-204 | the plane x + y + z = 1 is nearest to the origin at (1/3, 1/3, 1/3) |
| Planes.SameAsProjective | koebe/geometries/euclidean3.py:212-215 | plane equality is reflexive and symmetric, and a plane equals every multiple of itself, negative ones included |
| Planes.SameAsSamePoints | koebe/geometries/euclidean3.py:212-215 | two equal planes with non-zero normals contain the same points |
| Planes.SameAsExamples | koebe/geometries/euclidean3.py:212-215 | z = 0 equals the plane with normal (0,0,−2) and d = 0, and does not equal the plane with d = 1 |
| Dominance.DominantE3.Vector | koebe/geometries/euclidean3.py:224-230 | each enumeration value is a unit vector whose own coordinate is +1 or −1, matching its sign |
| Dominance.Dominant | koebe/geometries/euclidean3.py:232-242 | the chosen axis has the largest magnitude and beats every earlier axis strictly (X, then Y, then Z win ties); the sign is positive iff the coordinate is > 0 |
| Dominance.DominantUnique | koebe/geometries/euclidean3.py:232-242 | those three properties determine the result of `dominant` |
| Dominance.DominantDot | koebe/geometries/euclidean3.py:232-242 | the dominant axis vector's dot product with the input is the magnitude of the dominant coordinate |
| Dominance.LeastDominant | koebe/geometries/euclidean3.py:244-254 | the chosen axis has the smallest magnitude and beats every earlier axis strictly; the sign is positive iff the coordinate is ≥ 0 |
| Dominance.LeastDominantOfVector | koebe/geometries/euclidean3.py:256-257 | `least_dominant_VectorE3` has the smallest-magnitude, tie-break and ≥ 0 sign properties on the vector's coordinates |
| Dominance.LeastDominantUnique | koebe/geometries/euclidean3.py:244-257 | those properties determine the result of `least_dominant_VectorE3` |
| Dominance.LeastDominantDot | koebe/geometries/euclidean3.py:244-257 | the least dominant axis vector's dot product with the input is that coordinate's magnitude |
| Dominance.DominanceExamples | koebe/geometries/euclidean3.py:232-254 | dominant(1,1,0) = +X and dominant(0,0,0) = −X; least_dominant(1,1,0) = +Z and least_dominant(0,0,0) = +X |

## Left out

- Floating-point arithmetic is not modelled: coordinates are exact reals, so rounding, NaN and infinities are not captured.
- `math.sqrt` is a parameter of `DistTo`, `Norm`, `Normalize` and the `DirectionE3` members. Facts that need a true square root assume `ExactSqrt`.
- Euclidean3.VectorE3.Normalize: requires a non-zero norm. The code raises a division error there, and the model does not represent that error.
- Euclidean3.VectorE3.Div: requires a non-zero divisor, for the same reason.
- Planes.PlaneE3.ClosestToOrigin: requires a non-zero normal, for the same reason.
- `PlaneE3.pointOP3ClosestOrigin` is left out: it builds a `PointOP3` from `orientedProjective3.py`, which is not part of this model.
- `PlaneE3.fromPlaneE3` is left out: it calls `VectorE3(p.N)` with a single argument, so it fails on every input.
- `PointE3.fromPointE3` and `VectorE3.fromVectorE3` are left out: they copy an immutable value, and a Dafny datatype value is its own copy.
- Partial default arguments are not modelled: `PointE3(x)` and `PointE3(x, y)` fill the missing coordinates with 0 (euclidean3.py:13), and `PlaneE3(N)` sets d = 0 (euclidean3.py:183). Only the no-argument forms are modelled, as `Origin` and `DefaultPlane`.
- `__eq__` on points and vectors is Dafny's datatype equality. The `None` checks, `__ne__`, `__iter__` and `__str__` are left out.
- `DirectionE3.e1`, `e2` and `e3` are shared objects whose caches fill on first use. They are not modelled as global objects; `BasisDirections` states what their unit vectors are.
- Directions.DirectionE3.V: requires the class invariant `Valid(sqrt)` (a filled cache holds the unit vector), so every call must pass the same root. Races between threads filling the cache are not modelled.
- `commonOps.determinant2` and `commonOps.are_dependent4` are modelled from their contracts, as described above.
