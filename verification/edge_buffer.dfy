/**
 The edge-geometry rewrite of the hand-built three.js view
 (`updateEdgePosition`): slots 0..5 of a line's flat coordinate array get
 the two endpoints (z read as 0 when absent) and the attribute is marked
 for re-upload. The array is a typed array, so a write past its end is
 dropped rather than growing it.
 */
module EdgeBuffer {
  import opened Geometry

  /** A line's geometry: a buffer geometry with its coordinate array and dirty flag, or some other kind. */
  datatype LineGeometry =
    | BufferGeometry(positions: seq<real>, needsUpdate: bool)
    | OtherGeometry

  /** The six values the two endpoints occupy, in slot order. */
  function EndpointSlots(src: Coord, tgt: Coord): (s: seq<real>)
    ensures |s| == 6
  {
    [src.x, src.y, ZOrZero(src.z), tgt.x, tgt.y, ZOrZero(tgt.z)]
  }

  /** The two points a buffer of at least six values holds in its first slots. */
  function ReadEndpoints(buf: seq<real>): (Point, Point)
    requires |buf| >= 6
  {
    (Point(buf[0], buf[1], buf[2]), Point(buf[3], buf[4], buf[5]))
  }

  /**
   The coordinate array after the rewrite. Reading the endpoints back gives
   the two positions written; everything past slot 5 is as before.
   */
  function WriteEndpoints(buf: seq<real>, src: Coord, tgt: Coord): (r: seq<real>)
    ensures |r| == |buf|
    ensures forall i :: 6 <= i < |buf| ==> r[i] == buf[i]
    ensures |buf| >= 6 ==> ReadEndpoints(r) == (Flatten(src), Flatten(tgt))
  {
    var slots := EndpointSlots(src, tgt);
    seq(|buf|, i requires 0 <= i < |buf| => if i < 6 then slots[i] else buf[i])
  }

  /**
   `updateEdgePosition(geometry, src, tgt)`: the six slot writes in order,
   each dropped when the array is too short, then the dirty flag.
   */
  method UpdateEdgePosition(g: LineGeometry, src: Coord, tgt: Coord) returns (g': LineGeometry)
    requires g.BufferGeometry?
    ensures g'.BufferGeometry? && g'.needsUpdate
    ensures |g'.positions| == |g.positions|
    ensures forall i :: 0 <= i < |g.positions| && i < 6 ==> g'.positions[i] == EndpointSlots(src, tgt)[i]
    ensures forall i :: 6 <= i < |g.positions| ==> g'.positions[i] == g.positions[i]
    ensures g'.positions == WriteEndpoints(g.positions, src, tgt)
  {
    var slots := EndpointSlots(src, tgt);
    var a := g.positions;
    var i := 0;
    while i < 6
      invariant 0 <= i <= 6
      invariant |a| == |g.positions|
      invariant forall j :: 0 <= j < |a| ==> a[j] == (if j < i then slots[j] else g.positions[j])
    {
      if i < |a| {
        a := a[i := slots[i]];
      }
      i := i + 1;
    }
    g' := BufferGeometry(a, true);
  }
}
