/**
 The per-mesh animation of the hand-built three.js view
 (`animateNodeMovement` and its `animate` frame callback). Each frame puts
 the mesh at `lerp(start, (tx, ty, 0), min(elapsed / duration, 1))` and asks
 for another frame while that fraction is below 1. The clock is a
 parameter: the elapsed time at each frame is given, never read.
 */
module NodeAnimation {
  import opened Geometry

  /** Animation length in milliseconds. */
  const Duration: real := 1000.0

  /** `Math.min(elapsed / duration, 1)`: the clamped fraction of the animation done. */
  function Progress(elapsed: real): (r: real)
    requires elapsed >= 0.0
    ensures 0.0 <= r <= 1.0
    ensures r == 1.0 <==> elapsed >= Duration
    ensures r < 1.0 ==> r * Duration == elapsed
  {
    var q := elapsed / Duration;
    if q < 1.0 then q else 1.0
  }

  /** Where the mesh is sent: the layout's x and y, with z forced to 0. */
  function EndPoint(target: Coord): (e: Point)
    ensures e.x == target.x && e.y == target.y && e.z == 0.0
  {
    Point(target.x, target.y, 0.0)
  }

  /** What one `animate` call does: the mesh position it sets and whether it asks for another frame. */
  datatype Frame = Frame(position: Point, again: bool)

  /** The `animate` callback when `elapsed` milliseconds have passed since the start. */
  function AnimateFrame(start: Point, target: Coord, elapsed: real): (f: Frame)
    requires elapsed >= 0.0
    ensures f.again <==> elapsed < Duration
    ensures !f.again ==> f.position == EndPoint(target)
    ensures elapsed == 0.0 ==> f.position == start
  {
    var p := Progress(elapsed);
    Frame(Lerp(start, EndPoint(target), p), p < 1.0)
  }

  /** The end of a run of frames: the mesh's last position and how many frames ran. */
  datatype Animation = Animation(position: Point, frames: nat)

  /**
   `animateNodeMovement`: the first frame runs at once, and each frame that
   asks for another gets the next clock reading in `times`. The run stops at
   the first frame that does not ask again, or when the readings run out.
   */
  function Animate(start: Point, target: Coord, times: seq<real>): (r: Animation)
    requires |times| >= 1
    requires forall i :: 0 <= i < |times| ==> times[i] >= 0.0
    ensures 1 <= r.frames <= |times|
    ensures r.position == AnimateFrame(start, target, times[r.frames - 1]).position
    ensures forall i :: 0 <= i < r.frames - 1 ==> times[i] < Duration
    ensures r.frames < |times| ==> times[r.frames - 1] >= Duration
    ensures (exists i :: 0 <= i < |times| && times[i] >= Duration) ==> r.position == EndPoint(target)
  {
    if times[0] >= Duration || |times| == 1 then
      Animation(AnimateFrame(start, target, times[0]).position, 1)
    else
      var rest := Animate(start, target, times[1..]);
      assert forall i :: 1 <= i < |times| ==> times[i] == times[1..][i - 1];
      Animation(rest.position, rest.frames + 1)
  }

  /** Progress never goes back as time passes. */
  lemma ProgressMonotone(e1: real, e2: real)
    requires 0.0 <= e1 <= e2
    ensures Progress(e1) <= Progress(e2)
  {
  }

  /**
   Monotone approach: on each axis a later frame is no farther from the end
   point than an earlier one.
   */
  lemma FramesApproach(start: Point, target: Coord, e1: real, e2: real)
    requires 0.0 <= e1 <= e2
    ensures var e := EndPoint(target);
            var p := AnimateFrame(start, target, e1).position;
            var q := AnimateFrame(start, target, e2).position;
            && Abs(e.x - q.x) <= Abs(e.x - p.x)
            && Abs(e.y - q.y) <= Abs(e.y - p.y)
            && Abs(e.z - q.z) <= Abs(e.z - p.z)
  {
    var e := EndPoint(target);
    var t1 := Progress(e1);
    var t2 := Progress(e2);
    ProgressMonotone(e1, e2);
    AxisApproach(start.x, e.x, t1, t2);
    AxisApproach(start.y, e.y, t1, t2);
    AxisApproach(start.z, e.z, t1, t2);
  }

  /**
   No overshoot: every frame's coordinates lie between the mesh's start and
   the end point, on each axis.
   */
  lemma FrameBetween(start: Point, target: Coord, elapsed: real)
    requires elapsed >= 0.0
    ensures var e := EndPoint(target);
            var p := AnimateFrame(start, target, elapsed).position;
            && Between(start.x, e.x, p.x)
            && Between(start.y, e.y, p.y)
            && Between(start.z, e.z, p.z)
  {
    var e := EndPoint(target);
    var t := Progress(elapsed);
    LerpBetween(start.x, e.x, t);
    LerpBetween(start.y, e.y, t);
    LerpBetween(start.z, e.z, t);
  }

  /** One axis of `FramesApproach`. */
  lemma AxisApproach(a: real, b: real, t1: real, t2: real)
    requires 0.0 <= t1 <= t2 <= 1.0
    ensures Abs(b - Lerp1(a, b, t2)) <= Abs(b - Lerp1(a, b, t1))
  {
    var g := b - a;
    var u1 := 1.0 - t1;
    var u2 := 1.0 - t2;
    assert b - Lerp1(a, b, t1) == g * u1;
    assert b - Lerp1(a, b, t2) == g * u2;
    AbsScale(g, u1);
    AbsScale(g, u2);
    MulMono(Abs(g), u2, u1);
  }

  /** Scaling by a non-negative factor scales the distance. */
  lemma AbsScale(g: real, u: real)
    requires u >= 0.0
    ensures Abs(g * u) == Abs(g) * u
  {
    if g >= 0.0 {
      MulNonNeg(g, u);
    } else {
      MulNonNeg(-g, u);
      assert (-g) * u == -(g * u);
    }
  }
}
