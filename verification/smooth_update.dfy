/**
 The converging step interpolator (`smoothUpdate` and its `interpolate`
 timer callback). Tick k (1-based) moves every node that has a target by
 `(target - current) / (steps - k + 1)` on each axis, so the divisor falls to
 1 on the last tick and the node lands on its target. The timer chain is an
 explicit tick count; the current positions and the targets are two
 separate stores.
 */
module SmoothUpdate {
  import opened Geometry
  import opened Bridge

  /** Number of ticks. */
  const Steps: nat := 60

  /** One axis of one tick: a `1/d` share of the remaining gap. */
  function Approach(a: real, t: real, d: real): (r: real)
    requires d >= 1.0
    ensures t - r == (t - a) * ((d - 1.0) / d)
    ensures d == 1.0 ==> r == t
    ensures a == t ==> r == a
  {
    a + (t - a) / d
  }

  /** One tick for one node. */
  function StepPoint(p: Point, t: Point, d: real): (r: Point)
    requires d >= 1.0
    ensures d == 1.0 ==> r == t
  {
    Point(Approach(p.x, t.x, d), Approach(p.y, t.y, d), Approach(p.z, t.z, d))
  }

  /**
   The `interpolate` callback on its k-th call. Ticks past `steps` return
   at once; otherwise every current node with a target moves one converging
   step (the divisor `steps - k + 1` is at least 1 here), the others stay.
   */
  function Interpolate(current: map<Id, Point>, targets: map<Id, Point>, steps: nat, k: nat): (r: map<Id, Point>)
    requires k >= 1
    ensures r.Keys == current.Keys
    ensures forall id :: id in current && id !in targets ==> r[id] == current[id]
    ensures k > steps ==> r == current
    ensures k == steps ==> forall id :: id in current && id in targets ==> r[id] == targets[id]
  {
    if k > steps then current
    else
      map id | id in current ::
        if id in targets then StepPoint(current[id], targets[id], (steps - k + 1) as real) else current[id]
  }

  /** The positions after the first n calls of the callback. */
  function Ticks(current: map<Id, Point>, targets: map<Id, Point>, steps: nat, n: nat): map<Id, Point>
  {
    if n == 0 then current else Interpolate(Ticks(current, targets, steps, n - 1), targets, steps, n)
  }

  /** A finished timer chain: final positions, refresh calls, callback runs. */
  datatype Run = Run(positions: map<Id, Point>, refreshes: nat, callbacks: nat)

  /**
   The timer chain from the k-th callback on: each tick that runs moves the
   nodes, refreshes once and schedules the next; the first call past
   `steps` returns without scheduling, which ends the chain.
   */
  function RunFrom(current: map<Id, Point>, targets: map<Id, Point>, steps: nat, k: nat): (r: Run)
    requires k >= 1
    ensures r.positions.Keys == current.Keys
    ensures k <= steps + 1 ==> r.refreshes == steps + 1 - k && r.callbacks == steps + 2 - k
    ensures k > steps ==> r.positions == current
    ensures k <= steps ==> forall id :: id in current && id in targets ==> r.positions[id] == targets[id]
    ensures forall id :: id in current && id !in targets ==> r.positions[id] == current[id]
    decreases steps + 1 - k
  {
    if k > steps then Run(current, 0, 1)
    else
      var rest := RunFrom(Interpolate(current, targets, steps, k), targets, steps, k + 1);
      Run(rest.positions, rest.refreshes + 1, rest.callbacks + 1)
  }

  /**
   `smoothUpdate(targets)` with the source's 60 ticks: every current node
   with a target ends exactly on it, the others are untouched, the chain
   refreshes 60 times and stops on its 61st callback.
   */
  function SmoothUpdate(current: map<Id, Point>, targets: map<Id, Point>): (r: Run)
    ensures r.positions.Keys == current.Keys
    ensures forall id :: id in current && id in targets ==> r.positions[id] == targets[id]
    ensures forall id :: id in current && id !in targets ==> r.positions[id] == current[id]
    ensures r.refreshes == Steps && r.callbacks == Steps + 1
  {
    RunFrom(current, targets, Steps, 1)
  }

  // ---- per-tick properties ----

  /** The gap left on one axis after tick k is the old gap times `(steps-k)/(steps-k+1)`. */
  function GapFactor(steps: nat, k: nat): real
    requires 1 <= k <= steps
  {
    (steps - k) as real / (steps - k + 1) as real
  }

  /**
   One tick shrinks each axis' gap by the factor `(steps-k)/(steps-k+1)`:
   the distance to the target never grows and its sign never flips.
   */
  lemma TickGap(current: map<Id, Point>, targets: map<Id, Point>, steps: nat, k: nat, id: Id)
    requires 1 <= k <= steps && id in current && id in targets
    ensures var p := current[id]; var q := Interpolate(current, targets, steps, k)[id]; var t := targets[id];
            && t.x - q.x == (t.x - p.x) * GapFactor(steps, k)
            && t.y - q.y == (t.y - p.y) * GapFactor(steps, k)
            && t.z - q.z == (t.z - p.z) * GapFactor(steps, k)
            && Abs(t.x - q.x) <= Abs(t.x - p.x) && (t.x - q.x) * (t.x - p.x) >= 0.0
            && Abs(t.y - q.y) <= Abs(t.y - p.y) && (t.y - q.y) * (t.y - p.y) >= 0.0
            && Abs(t.z - q.z) <= Abs(t.z - p.z) && (t.z - q.z) * (t.z - p.z) >= 0.0
  {
    var d := (steps - k + 1) as real;
    var p := current[id];
    var t := targets[id];
    var q := Interpolate(current, targets, steps, k)[id];
    assert q == StepPoint(p, t, d);
    AxisGap(p.x, t.x, steps, k);
    AxisGap(p.y, t.y, steps, k);
    AxisGap(p.z, t.z, steps, k);
  }

  /** One axis of `TickGap`. */
  lemma AxisGap(a: real, t: real, steps: nat, k: nat)
    requires 1 <= k <= steps
    ensures var r := Approach(a, t, (steps - k + 1) as real);
            && t - r == (t - a) * GapFactor(steps, k)
            && Abs(t - r) <= Abs(t - a) && (t - r) * (t - a) >= 0.0
  {
    var d := (steps - k + 1) as real;
    var f := GapFactor(steps, k);
    assert (steps - k) as real == d - 1.0;
    assert f == (d - 1.0) / d;
    assert 0.0 <= f <= 1.0;
    ShrinkAxis(t - a, f);
  }

  /** Scaling a gap by a factor in [0, 1] keeps its sign and does not grow it. */
  lemma ShrinkAxis(g: real, f: real)
    requires 0.0 <= f <= 1.0
    ensures Abs(g * f) <= Abs(g)
    ensures (g * f) * g >= 0.0
  {
    var h := g * f;
    if g >= 0.0 {
      MulNonNeg(g, f);
      MulMono(g, f, 1.0);
      assert g * 1.0 == g;
      MulNonNeg(h, g);
    } else {
      MulNonNeg(-g, f);
      MulMono(-g, f, 1.0);
      assert (-g) * f == -h;
      assert (-g) * 1.0 == -g;
      MulNonNeg(-h, -g);
      assert (-h) * (-g) == h * g;
    }
  }

  // ---- the whole run against an independent reference ----

  /** One targeted node's position after the first n ticks, on its own. */
  function NodeTicks(p: Point, t: Point, steps: nat, n: nat): Point
    requires n <= steps
  {
    if n == 0 then p else StepPoint(NodeTicks(p, t, steps, n - 1), t, (steps - n + 1) as real)
  }

  /** In the store, a node with a target moves exactly as it would on its own. */
  lemma {:induction false} TicksPointwise(current: map<Id, Point>, targets: map<Id, Point>, steps: nat, n: nat, id: Id)
    requires n <= steps && id in current && id in targets
    ensures id in Ticks(current, targets, steps, n)
    ensures Ticks(current, targets, steps, n)[id] == NodeTicks(current[id], targets[id], steps, n)
  {
    if n > 0 {
      TicksKeepKeys(current, targets, steps, n - 1);
      TicksPointwise(current, targets, steps, n - 1, id);
    }
  }

  /** One axis of one targeted node after the first n ticks. */
  function AxisTicks(a: real, t: real, steps: nat, n: nat): real
    requires n <= steps
  {
    if n == 0 then a else Approach(AxisTicks(a, t, steps, n - 1), t, (steps - n + 1) as real)
  }

  /**
   After n of the `steps` ticks an axis sits exactly at the straight-line
   value `n/steps` of the way from its start to its target: the converging
   divisor is linear interpolation in disguise.
   */
  lemma {:induction false} AxisTicksLinear(a: real, t: real, steps: nat, n: nat)
    requires n <= steps && steps >= 1
    ensures AxisTicks(a, t, steps, n) == Lerp1(a, t, n as real / steps as real)
  {
    if n > 0 {
      AxisTicksLinear(a, t, steps, n - 1);
      LinearStep(a, t, steps, n - 1);
    }
  }

  /** A node's ticks are its three axes' ticks side by side. */
  lemma {:induction false} NodeTicksAxes(p: Point, t: Point, steps: nat, n: nat)
    requires n <= steps
    ensures NodeTicks(p, t, steps, n)
            == Point(AxisTicks(p.x, t.x, steps, n), AxisTicks(p.y, t.y, steps, n), AxisTicks(p.z, t.z, steps, n))
  {
    if n > 0 { NodeTicksAxes(p, t, steps, n - 1); }
  }

  /** The same for a whole point: after n ticks it is at `lerp(start, target, n/steps)`. */
  lemma NodeTicksLinear(p: Point, t: Point, steps: nat, n: nat)
    requires n <= steps && steps >= 1
    ensures NodeTicks(p, t, steps, n) == Lerp(p, t, n as real / steps as real)
  {
    NodeTicksAxes(p, t, steps, n);
    AxisTicksLinear(p.x, t.x, steps, n);
    AxisTicksLinear(p.y, t.y, steps, n);
    AxisTicksLinear(p.z, t.z, steps, n);
  }

  /** The same in the store: after n ticks a targeted node is at `lerp(start, target, n/steps)`. */
  lemma TicksAreLinear(current: map<Id, Point>, targets: map<Id, Point>, steps: nat, n: nat, id: Id)
    requires n <= steps && steps >= 1 && id in current && id in targets
    ensures id in Ticks(current, targets, steps, n)
    ensures Ticks(current, targets, steps, n)[id] == Lerp(current[id], targets[id], n as real / steps as real)
  {
    TicksPointwise(current, targets, steps, n, id);
    NodeTicksLinear(current[id], targets[id], steps, n);
  }

  /** One axis of the induction step: a tick takes the point at m/N to (m+1)/N. */
  lemma LinearStep(s: real, t: real, N: nat, m: nat)
    requires m < N
    ensures Approach(Lerp1(s, t, m as real / N as real), t, (N - (m + 1) + 1) as real)
            == Lerp1(s, t, (m + 1) as real / N as real)
  {
    var n := N as real;
    var g := t - s;
    var p := Lerp1(s, t, m as real / n);
    var d := (N - m) as real;
    assert t - p == g * (1.0 - m as real / n);
    assert 1.0 - m as real / n == d / n;
    assert (t - p) / d == g / n;
    assert (m + 1) as real / n == m as real / n + 1.0 / n;
  }

  /** Ticks never add or drop nodes. */
  lemma {:induction false} TicksKeepKeys(current: map<Id, Point>, targets: map<Id, Point>, steps: nat, n: nat)
    ensures Ticks(current, targets, steps, n).Keys == current.Keys
  {
    if n > 0 { TicksKeepKeys(current, targets, steps, n - 1); }
  }

  /** A node without a target never moves, however many ticks run. */
  lemma {:induction false} TicksLeaveUntargeted(current: map<Id, Point>, targets: map<Id, Point>, steps: nat, n: nat, id: Id)
    requires id in current && id !in targets
    ensures id in Ticks(current, targets, steps, n)
    ensures Ticks(current, targets, steps, n)[id] == current[id]
  {
    if n > 0 {
      TicksKeepKeys(current, targets, steps, n - 1);
      TicksLeaveUntargeted(current, targets, steps, n - 1, id);
    }
  }

  /** Calls past `steps` change nothing: the state after `steps` ticks is final. */
  lemma {:induction false} TicksSettle(current: map<Id, Point>, targets: map<Id, Point>, steps: nat, n: nat)
    requires n >= steps
    ensures Ticks(current, targets, steps, n) == Ticks(current, targets, steps, steps)
  {
    if n > steps { TicksSettle(current, targets, steps, n - 1); }
  }

  /**
   Convergence: from tick `steps` on, every node with a target sits exactly
   on it, on all three axes.
   */
  lemma Convergence(current: map<Id, Point>, targets: map<Id, Point>, steps: nat, n: nat, id: Id)
    requires 1 <= steps <= n && id in current && id in targets
    ensures id in Ticks(current, targets, steps, n)
    ensures Ticks(current, targets, steps, n)[id] == targets[id]
  {
    TicksSettle(current, targets, steps, n);
    TicksKeepKeys(current, targets, steps, steps);
    TicksAreLinear(current, targets, steps, steps, id);
  }

  /** The timer chain ends in the state the tick count reaches at `steps`. */
  lemma {:induction false} RunFromIsTicks(current: map<Id, Point>, targets: map<Id, Point>, steps: nat, k: nat)
    requires 1 <= k <= steps + 1
    ensures RunFrom(Ticks(current, targets, steps, k - 1), targets, steps, k).positions
            == Ticks(current, targets, steps, steps)
    decreases steps + 1 - k
  {
    var before := Ticks(current, targets, steps, k - 1);
    if k <= steps {
      var after := Ticks(current, targets, steps, k);
      assert after == Interpolate(before, targets, steps, k);
      assert RunFrom(before, targets, steps, k).positions == RunFrom(after, targets, steps, k + 1).positions;
      RunFromIsTicks(current, targets, steps, k + 1);
      assert RunFrom(after, targets, steps, k + 1).positions == Ticks(current, targets, steps, steps);
    } else {
      assert k - 1 == steps;
    }
  }

  /** With a target for every node, the whole store equals the targets from tick `steps` on. */
  lemma ConvergenceAll(current: map<Id, Point>, targets: map<Id, Point>, steps: nat, n: nat)
    requires 1 <= steps <= n && current.Keys == targets.Keys
    ensures Ticks(current, targets, steps, n) == targets
  {
    TicksKeepKeys(current, targets, steps, n);
    forall id | id in targets ensures Ticks(current, targets, steps, n)[id] == targets[id] {
      Convergence(current, targets, steps, n, id);
    }
  }
}
