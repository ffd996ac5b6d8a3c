/**
 `updateForceGraph`, run once at start-up and after each layout: the
 force graph's data is fully replaced by a fresh snapshot of the 2D graph,
 then `smoothUpdate` is asked to move the shown nodes to the snapshot's
 positions.
 */
module ForceGraphSync {
  import opened Geometry
  import opened Bridge
  import opened SmoothUpdate

  /** The force graph after an update: its graph data and the positions it shows. */
  datatype View = View(data: GraphData, shown: map<Id, Point>)

  /** Ticks whose targets are the current positions themselves move nothing. */
  lemma {:induction false} AliasedTicksStill(m: map<Id, Point>, steps: nat, n: nat)
    ensures Ticks(m, m, steps, n) == m
  {
    if n > 0 {
      AliasedTicksStill(m, steps, n - 1);
      var k := n;
      if k <= steps {
        forall id | id in m ensures Interpolate(m, m, steps, k)[id] == m[id] {
          var p := m[id];
          var d := (steps - k + 1) as real;
          assert StepPoint(p, p, d) == p;
        }
      }
    }
  }

  /**
   `updateForceGraph` as written. The new graph data holds the snapshot's
   node objects, and `smoothUpdate` is then handed that same node list as
   its targets, so current and target are one object for every node: the
   shown positions are the snapshot's from the first moment and no tick
   moves anything, whatever the graph showed before.
   */
  function UpdateForceGraphAsWritten(before: GraphData, cy: CyGraph, n: nat): (v: View)
    ensures v.data == CytoscapeToForceGraph(cy)
    ensures v.shown == Positions(v.data.nodes)
  {
    var data := CytoscapeToForceGraph(cy);
    var p := Positions(data.nodes);
    AliasedTicksStill(p, Steps, n);
    View(data, Ticks(p, p, Steps, n))
  }

  /** Where each node of the new snapshot starts: where it was shown, or its target if it is new. */
  function StartPositions(before: map<Id, Point>, targets: map<Id, Point>): (s: map<Id, Point>)
    ensures s.Keys == targets.Keys
    ensures forall id :: id in targets && id in before ==> s[id] == before[id]
    ensures forall id :: id in targets && id !in before ==> s[id] == targets[id]
  {
    map id | id in targets :: if id in before then before[id] else targets[id]
  }

  /**
   `updateForceGraph` as evidently intended: the graph data is replaced by
   the snapshot, each surviving node starts from where it was shown, and
   after `Steps` ticks every node shows its snapshot position.
   */
  function UpdateForceGraph(before: GraphData, cy: CyGraph, n: nat): (v: View)
    ensures v.data == CytoscapeToForceGraph(cy)
    ensures v.shown.Keys == FgNodeIds(v.data.nodes)
    ensures n >= Steps ==> v.shown == Positions(v.data.nodes)
    ensures n == 0 ==> forall id :: id in v.shown && id in Positions(before.nodes) ==>
                         v.shown[id] == Positions(before.nodes)[id]
  {
    var data := CytoscapeToForceGraph(cy);
    var targets := Positions(data.nodes);
    var start := StartPositions(Positions(before.nodes), targets);
    TicksKeepKeys(start, targets, Steps, n);
    if n >= Steps then
      ConvergenceAll(start, targets, Steps, n);
      View(data, Ticks(start, targets, Steps, n))
    else
      View(data, Ticks(start, targets, Steps, n))
  }

  /**
   Under the intended update a node that survives the layout change moves
   along the straight line from where it was shown to its new position,
   `n/Steps` of the way after n ticks.
   */
  lemma UpdateForceGraphIsLinear(before: GraphData, cy: CyGraph, n: nat, id: Id)
    requires n <= Steps
    requires id in Positions(before.nodes) && id in Positions(CytoscapeToForceGraph(cy).nodes)
    ensures UpdateForceGraph(before, cy, n).shown[id]
            == Lerp(Positions(before.nodes)[id], Positions(CytoscapeToForceGraph(cy).nodes)[id], n as real / Steps as real)
  {
    var targets := Positions(CytoscapeToForceGraph(cy).nodes);
    var start := StartPositions(Positions(before.nodes), targets);
    TicksAreLinear(start, targets, Steps, n, id);
  }

  /**
   The discrepancy on one node: shown at (0, 0, 0) before, laid out at
   (10, 0) now. As written the node is already at (10, 0, 0) after the first
   tick; as intended it has moved one sixtieth of the way.
   */
  lemma AliasingSkipsAnimation()
    ensures var before := GraphData([FgNode("A", 0.0, 0.0, 0.0)], []);
            var cy := CyGraph([CyNode("A", Coord(10.0, 0.0, Wrappers.None))], []);
            && UpdateForceGraphAsWritten(before, cy, 1).shown["A"] == Point(10.0, 0.0, 0.0)
            && UpdateForceGraph(before, cy, 1).shown["A"] == Point(10.0 / 60.0, 0.0, 0.0)
  {
    var before := GraphData([FgNode("A", 0.0, 0.0, 0.0)], []);
    var cy := CyGraph([CyNode("A", Coord(10.0, 0.0, Wrappers.None))], []);
    var snap := CytoscapeToForceGraph(cy);
    assert snap.nodes == [FgNode("A", 10.0, 0.0, 0.0)];
    assert Positions(before.nodes) == map["A" := Point(0.0, 0.0, 0.0)];
    assert Positions(snap.nodes) == map["A" := Point(10.0, 0.0, 0.0)];
    UpdateForceGraphIsLinear(before, cy, 1, "A");
  }
}
