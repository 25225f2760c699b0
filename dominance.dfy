/** Classification of a 3-vector by its dominant (largest magnitude) or least
    dominant (smallest magnitude) coordinate axis, signed by the sign of that
    coordinate. */
module Dominance {
  import opened Euclidean3

  /** A coordinate axis, in the priority order X, Y, Z used to break ties. */
  datatype Axis = X | Y | Z {
    function Rank(): nat
    {
      match this
      case X => 0
      case Y => 1
      case Z => 2
    }
  }

  /** `DominantE3`: the six signed coordinate axes. */
  datatype DominantE3 = PosX | NegX | PosY | NegY | PosZ | NegZ {

    /** The axis this value lies along. */
    function Axis(): Axis
    {
      match this
      case PosX | NegX => X
      case PosY | NegY => Y
      case PosZ | NegZ => Z
    }

    /** Whether this value points along the positive half of its axis. */
    predicate Positive()
    {
      this == PosX || this == PosY || this == PosZ
    }

    /** The enumeration's value: the signed unit vector of the axis. */
    function Vector(): (u: VectorE3)
      ensures u.NormSq() == 1.0
      ensures Coordinate(u, Axis()) == (if Positive() then 1.0 else -1.0)
    {
      match this
      case PosX => VectorE3(1.0, 0.0, 0.0)
      case NegX => VectorE3(-1.0, 0.0, 0.0)
      case PosY => VectorE3(0.0, 1.0, 0.0)
      case NegY => VectorE3(0.0, -1.0, 0.0)
      case PosZ => VectorE3(0.0, 0.0, 1.0)
      case NegZ => VectorE3(0.0, 0.0, -1.0)
    }
  }

  function Abs(a: real): real
  {
    if a >= 0.0 then a else -a
  }

  /** The coordinate of v along axis c. */
  function Coordinate(v: VectorE3, c: Axis): real
  {
    match c
    case X => v.x
    case Y => v.y
    case Z => v.z
  }

  /** `dominant`: the axis of largest magnitude. Ties go to the earlier axis
      (X before Y before Z); the sign is positive exactly when that
      coordinate is strictly positive, so a zero coordinate gives the
      negative axis. */
  function Dominant(dx: real, dy: real, dz: real): (r: DominantE3)
    ensures forall c: Axis :: Abs(Coordinate(VectorE3(dx, dy, dz), c)) <= Abs(Coordinate(VectorE3(dx, dy, dz), r.Axis()))
    ensures forall c: Axis :: c.Rank() < r.Axis().Rank() ==>
              Abs(Coordinate(VectorE3(dx, dy, dz), c)) < Abs(Coordinate(VectorE3(dx, dy, dz), r.Axis()))
    ensures r.Positive() <==> Coordinate(VectorE3(dx, dy, dz), r.Axis()) > 0.0
  {
    var dxabs := if dx >= 0.0 then dx else -dx;
    var dyabs := if dy >= 0.0 then dy else -dy;
    var dzabs := if dz >= 0.0 then dz else -dz;
    if dxabs >= dyabs && dxabs >= dzabs then
      (if dx > 0.0 then PosX else NegX)
    else if dyabs >= dzabs then
      (if dy > 0.0 then PosY else NegY)
    else
      (if dz > 0.0 then PosZ else NegZ)
  }

  /** `least_dominant`: the axis of smallest magnitude, ties again going to
      the earlier axis; here the sign is positive exactly when that
      coordinate is non-negative, so a zero coordinate gives the positive
      axis. */
  function LeastDominant(dx: real, dy: real, dz: real): (r: DominantE3)
    ensures forall c: Axis :: Abs(Coordinate(VectorE3(dx, dy, dz), r.Axis())) <= Abs(Coordinate(VectorE3(dx, dy, dz), c))
    ensures forall c: Axis :: c.Rank() < r.Axis().Rank() ==>
              Abs(Coordinate(VectorE3(dx, dy, dz), r.Axis())) < Abs(Coordinate(VectorE3(dx, dy, dz), c))
    ensures r.Positive() <==> Coordinate(VectorE3(dx, dy, dz), r.Axis()) >= 0.0
  {
    var dxabs := if dx >= 0.0 then dx else -dx;
    var dyabs := if dy >= 0.0 then dy else -dy;
    var dzabs := if dz >= 0.0 then dz else -dz;
    if dxabs <= dyabs && dxabs <= dzabs then
      (if dx >= 0.0 then PosX else NegX)
    else if dyabs <= dzabs then
      (if dy >= 0.0 then PosY else NegY)
    else
      (if dz >= 0.0 then PosZ else NegZ)
  }

  /** `least_dominant_VectorE3`: the least dominant axis of a vector's
      coordinates. */
  function LeastDominantOfVector(v: VectorE3): (r: DominantE3)
    ensures forall c: Axis :: Abs(Coordinate(v, r.Axis())) <= Abs(Coordinate(v, c))
    ensures forall c: Axis :: c.Rank() < r.Axis().Rank() ==> Abs(Coordinate(v, r.Axis())) < Abs(Coordinate(v, c))
    ensures r.Positive() <==> Coordinate(v, r.Axis()) >= 0.0
  {
    assert v == VectorE3(v.x, v.y, v.z);
    LeastDominant(v.x, v.y, v.z)
  }

  /** The three properties of `Dominant` pin its result down: any signed
      axis that has the largest magnitude, beats every earlier axis strictly
      and carries the `> 0` sign is the one `Dominant` returns. */
  lemma {:induction false} DominantUnique(v: VectorE3, r: DominantE3)
    requires forall c: Axis :: Abs(Coordinate(v, c)) <= Abs(Coordinate(v, r.Axis()))
    requires forall c: Axis :: c.Rank() < r.Axis().Rank() ==> Abs(Coordinate(v, c)) < Abs(Coordinate(v, r.Axis()))
    requires r.Positive() <==> Coordinate(v, r.Axis()) > 0.0
    ensures r == Dominant(v.x, v.y, v.z)
  {
    assert v == VectorE3(v.x, v.y, v.z);
    var s := Dominant(v.x, v.y, v.z);
    AxisUnique(v, r.Axis(), s.Axis(), true);
    SignedAxisUnique(r, s);
  }

  /** The same for `LeastDominant`, with the smallest magnitude and the
      `>= 0` sign. */
  lemma {:induction false} LeastDominantUnique(v: VectorE3, r: DominantE3)
    requires forall c: Axis :: Abs(Coordinate(v, r.Axis())) <= Abs(Coordinate(v, c))
    requires forall c: Axis :: c.Rank() < r.Axis().Rank() ==> Abs(Coordinate(v, r.Axis())) < Abs(Coordinate(v, c))
    requires r.Positive() <==> Coordinate(v, r.Axis()) >= 0.0
    ensures r == LeastDominantOfVector(v)
  {
    var s := LeastDominantOfVector(v);
    AxisUnique(v, r.Axis(), s.Axis(), false);
    SignedAxisUnique(r, s);
  }

  /** Two axes that are both extreme (largest when `largest`, smallest
      otherwise) and both strictly beat every earlier axis are the same
      axis. */
  lemma AxisUnique(v: VectorE3, a: Axis, b: Axis, largest: bool)
    requires largest ==> forall c: Axis :: Abs(Coordinate(v, c)) <= Abs(Coordinate(v, a)) && Abs(Coordinate(v, c)) <= Abs(Coordinate(v, b))
    requires !largest ==> forall c: Axis :: Abs(Coordinate(v, a)) <= Abs(Coordinate(v, c)) && Abs(Coordinate(v, b)) <= Abs(Coordinate(v, c))
    requires b.Rank() < a.Rank() ==> Abs(Coordinate(v, b)) != Abs(Coordinate(v, a))
    requires a.Rank() < b.Rank() ==> Abs(Coordinate(v, a)) != Abs(Coordinate(v, b))
    ensures a == b
  {
  }

  /** A signed axis is determined by its axis and its sign. */
  lemma SignedAxisUnique(r: DominantE3, s: DominantE3)
    requires r.Axis() == s.Axis() && (r.Positive() <==> s.Positive())
    ensures r == s
  {
  }

  /** The dominant axis vector points along the dominant coordinate: its dot
      product with the vector is that coordinate's magnitude. */
  lemma DominantDot(v: VectorE3)
    ensures Dominant(v.x, v.y, v.z).Vector().Dot(v) == Abs(Coordinate(v, Dominant(v.x, v.y, v.z).Axis()))
  {
    assert v == VectorE3(v.x, v.y, v.z);
  }

  /** Likewise for the least dominant axis. */
  lemma LeastDominantDot(v: VectorE3)
    ensures LeastDominantOfVector(v).Vector().Dot(v) == Abs(Coordinate(v, LeastDominantOfVector(v).Axis()))
  {
  }

  /** The tie-break and zero-sign rules on sample inputs: X wins its tie
      with Y; at the zero vector `Dominant` stops at X with the negative
      sign while `LeastDominant` stops at X with the positive sign. */
  lemma DominanceExamples()
    ensures Dominant(1.0, 1.0, 0.0) == PosX
    ensures Dominant(0.0, 0.0, 0.0) == NegX
    ensures Dominant(0.0, 0.0, -2.0) == NegZ
    ensures LeastDominant(1.0, 1.0, 0.0) == PosZ
    ensures LeastDominant(0.0, 0.0, 0.0) == PosX
    ensures LeastDominant(3.0, -1.0, 1.0) == NegY
  {
  }
}
