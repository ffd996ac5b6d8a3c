/** The optional-value wrapper used wherever JavaScript may hand over `undefined`. */
module Wrappers {

  datatype Option<+T> = None | Some(value: T)
}

/**
 Points, 2D layout coordinates and linear interpolation, shared by the
 force-graph view and the hand-built three.js view. All coordinates are
 real numbers: the browser's floating point is not modelled.
 */
module Geometry {
  import opened Wrappers

  /** A 3D position as the force graph and three.js hold it. */
  datatype Point = Point(x: real, y: real, z: real)

  /** A position as the 2D layout engine reports it: z may be absent. */
  datatype Coord = Coord(x: real, y: real, z: Option<real>)

  /** JavaScript's `z || 0` over the reals: an absent z reads as 0. */
  function ZOrZero(z: Option<real>): (r: real)
    ensures z.Some? ==> r == z.value
    ensures z.None? ==> r == 0.0
  {
    match z
    case Some(v) => v
    case None => 0.0
  }

  /** The 3D point a 2D layout position stands for. */
  function Flatten(c: Coord): (p: Point)
    ensures p.x == c.x && p.y == c.y
    ensures p.z == (if c.z.Some? then c.z.value else 0.0)
  {
    Point(c.x, c.y, ZOrZero(c.z))
  }

  /** A three.js vector seen as a position object: its z is always present. */
  function Lift(p: Point): (c: Coord)
    ensures Flatten(c) == p
  {
    Coord(p.x, p.y, Some(p.z))
  }

  /** One axis of `lerpVectors`: `a + (b - a) * t`. */
  function Lerp1(a: real, b: real, t: real): (r: real)
    ensures t == 0.0 ==> r == a
    ensures t == 1.0 ==> r == b
    ensures b - r == (b - a) * (1.0 - t)
  {
    a + (b - a) * t
  }

  /** `Vector3.lerpVectors(a, b, t)`: the point a fraction t of the way from a to b. */
  function Lerp(a: Point, b: Point, t: real): (r: Point)
    ensures t == 0.0 ==> r == a
    ensures t == 1.0 ==> r == b
  {
    Point(Lerp1(a.x, b.x, t), Lerp1(a.y, b.y, t), Lerp1(a.z, b.z, t))
  }

  /** v lies on the closed segment from a to b, whichever way it points. */
  predicate Between(a: real, b: real, v: real) {
    (a <= b ==> a <= v <= b) && (b <= a ==> b <= v <= a)
  }

  /** For a fraction t in [0, 1] the interpolated value lies between its ends. */
  lemma LerpBetween(a: real, b: real, t: real)
    requires 0.0 <= t <= 1.0
    ensures a <= b ==> a <= Lerp1(a, b, t) <= b
    ensures b <= a ==> b <= Lerp1(a, b, t) <= a
    ensures Between(a, b, Lerp1(a, b, t))
  {
    var g := b - a;
    assert Lerp1(a, b, t) == a + g * t;
    if g >= 0.0 {
      MulMono(g, 0.0, t);
      MulMono(g, t, 1.0);
      assert 0.0 <= g * t <= g;
    } else {
      MulMono(-g, 0.0, t);
      MulMono(-g, t, 1.0);
      assert (-g) * t == -(g * t);
      assert g <= g * t <= 0.0;
    }
  }

  /** Multiplying by a non-negative factor keeps order. */
  lemma MulMono(g: real, s: real, t: real)
    requires g >= 0.0 && s <= t
    ensures g * s <= g * t
  {
    MulNonNeg(g, t - s);
    assert g * t - g * s == g * (t - s);
  }

  /** The product of two non-negative reals is non-negative. */
  lemma MulNonNeg(a: real, b: real)
    requires a >= 0.0 && b >= 0.0
    ensures a * b >= 0.0
  {
  }

  function Abs(v: real): real { if v < 0.0 then -v else v }
}
