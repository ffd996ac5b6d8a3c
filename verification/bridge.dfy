/**
 The layout bridge (`cytoscapeToForceGraph`): it reads every node and edge of
 the 2D layout graph and builds the `{nodes, links}` graph data that fully
 replaces the force graph's data.
 */
module Bridge {
  import opened Wrappers
  import opened Geometry

  /** Node and edge identifiers are the graph model's opaque strings. */
  type Id = string

  /** A node of the 2D graph with the position its layout engine reports. */
  datatype CyNode = CyNode(id: Id, position: Coord)

  /** An edge of the 2D graph and the ids of its two endpoints. */
  datatype CyEdge = CyEdge(id: Id, source: Id, target: Id)

  /** The 2D graph: nodes and edges in the order the engine lists them. */
  datatype CyGraph = CyGraph(nodes: seq<CyNode>, edges: seq<CyEdge>)

  /** A force-graph node record `{id, x, y, z}`. */
  datatype FgNode = FgNode(id: Id, x: real, y: real, z: real) {
    function Position(): Point { Point(x, y, z) }
  }

  /** A force-graph link record `{source, target}`. */
  datatype Link = Link(source: Id, target: Id)

  /** The `{nodes, links}` value handed to the force graph. */
  datatype GraphData = GraphData(nodes: seq<FgNode>, links: seq<Link>)

  /** The record one 2D node becomes. */
  function NodeRecord(n: CyNode): (r: FgNode)
    ensures r.id == n.id
    ensures r.Position() == Flatten(n.position)
  {
    FgNode(n.id, n.position.x, n.position.y, ZOrZero(n.position.z))
  }

  /** The node records, one per 2D node and in the same order. */
  function NodeRecords(ns: seq<CyNode>): (r: seq<FgNode>)
    ensures |r| == |ns|
    ensures forall i :: 0 <= i < |ns| ==>
              r[i].id == ns[i].id && r[i].Position() == Flatten(ns[i].position)
  {
    if ns == [] then [] else [NodeRecord(ns[0])] + NodeRecords(ns[1..])
  }

  /** The link records, one per 2D edge and in the same order. */
  function LinkRecords(es: seq<CyEdge>): (r: seq<Link>)
    ensures |r| == |es|
    ensures forall i :: 0 <= i < |es| ==> r[i].source == es[i].source && r[i].target == es[i].target
  {
    if es == [] then [] else [Link(es[0].source, es[0].target)] + LinkRecords(es[1..])
  }

  /** `cytoscapeToForceGraph`: a full snapshot of the 2D graph. */
  function CytoscapeToForceGraph(g: CyGraph): (r: GraphData)
    ensures |r.nodes| == |g.nodes| && |r.links| == |g.edges|
    ensures forall i :: 0 <= i < |g.nodes| ==>
              r.nodes[i].id == g.nodes[i].id
              && r.nodes[i].x == g.nodes[i].position.x
              && r.nodes[i].y == g.nodes[i].position.y
              && r.nodes[i].z == ZOrZero(g.nodes[i].position.z)
    ensures forall i :: 0 <= i < |g.edges| ==>
              r.links[i] == Link(g.edges[i].source, g.edges[i].target)
  {
    GraphData(NodeRecords(g.nodes), LinkRecords(g.edges))
  }

  // ---- identities and referential integrity ----

  /** The set of ids carried by a sequence of 2D nodes. */
  function CyNodeIds(ns: seq<CyNode>): set<Id> { set i | 0 <= i < |ns| :: ns[i].id }

  /** The set of ids carried by a sequence of force-graph nodes. */
  function FgNodeIds(ns: seq<FgNode>): set<Id> { set i | 0 <= i < |ns| :: ns[i].id }

  /** No two 2D nodes share an id. */
  ghost predicate UniqueCyIds(ns: seq<CyNode>) {
    forall i, j :: 0 <= i < j < |ns| ==> ns[i].id != ns[j].id
  }

  /** No two force-graph nodes share an id. */
  ghost predicate UniqueFgIds(ns: seq<FgNode>) {
    forall i, j :: 0 <= i < j < |ns| ==> ns[i].id != ns[j].id
  }

  /** Every edge of the 2D graph joins two of its nodes. */
  ghost predicate EdgesClosed(g: CyGraph) {
    forall i :: 0 <= i < |g.edges| ==>
      g.edges[i].source in CyNodeIds(g.nodes) && g.edges[i].target in CyNodeIds(g.nodes)
  }

  /** Every link of the graph data joins two of its nodes. */
  ghost predicate LinksClosed(d: GraphData) {
    forall i :: 0 <= i < |d.links| ==>
      d.links[i].source in FgNodeIds(d.nodes) && d.links[i].target in FgNodeIds(d.nodes)
  }

  /** The snapshot keeps the node identities: same ids, same uniqueness. */
  lemma SnapshotKeepsIds(g: CyGraph)
    ensures FgNodeIds(CytoscapeToForceGraph(g).nodes) == CyNodeIds(g.nodes)
    ensures UniqueCyIds(g.nodes) ==> UniqueFgIds(CytoscapeToForceGraph(g).nodes)
  {
    var r := CytoscapeToForceGraph(g);
    forall id | id in CyNodeIds(g.nodes) ensures id in FgNodeIds(r.nodes) {
      var i :| 0 <= i < |g.nodes| && g.nodes[i].id == id;
      assert r.nodes[i].id == id;
    }
  }

  /** The snapshot keeps referential integrity: every link names nodes of the snapshot. */
  lemma SnapshotKeepsEdgesClosed(g: CyGraph)
    requires EdgesClosed(g)
    ensures LinksClosed(CytoscapeToForceGraph(g))
  {
    SnapshotKeepsIds(g);
  }

  // ---- the position store ----

  /** The position store a list of force-graph nodes stands for: id to position. */
  function Positions(ns: seq<FgNode>): (m: map<Id, Point>)
    ensures m.Keys == FgNodeIds(ns)
    ensures forall i :: 0 <= i < |ns| && FirstWithId(ns, i) ==> m[ns[i].id] == ns[i].Position()
  {
    if ns == [] then map[]
    else
      var rest := Positions(ns[1..]);
      FgNodeIdsCons(ns);
      PositionsCons(ns, rest);
      rest[ns[0].id := ns[0].Position()]
  }

  /** Storing the head over the tail's store keeps every first occurrence where it belongs. */
  lemma PositionsCons(ns: seq<FgNode>, rest: map<Id, Point>)
    requires |ns| > 0
    requires FgNodeIds(ns[1..]) <= rest.Keys
    requires forall i :: 0 <= i < |ns| - 1 && FirstWithId(ns[1..], i) ==> rest[ns[1..][i].id] == ns[1..][i].Position()
    ensures var m := rest[ns[0].id := ns[0].Position()];
            forall i :: 0 <= i < |ns| && FirstWithId(ns, i) ==> m[ns[i].id] == ns[i].Position()
  {
    var m := rest[ns[0].id := ns[0].Position()];
    forall i | 0 <= i < |ns| && FirstWithId(ns, i) ensures m[ns[i].id] == ns[i].Position() {
      if i > 0 {
        FirstWithIdTail(ns, i);
        assert m[ns[i].id] == rest[ns[1..][i - 1].id];
      }
    }
  }

  /** The ids of a node list are the head's plus those of the tail. */
  lemma FgNodeIdsCons(ns: seq<FgNode>)
    requires |ns| > 0
    ensures FgNodeIds(ns) == {ns[0].id} + FgNodeIds(ns[1..])
  {
    forall id | id in FgNodeIds(ns) ensures id in {ns[0].id} + FgNodeIds(ns[1..]) {
      var i :| 0 <= i < |ns| && ns[i].id == id;
      if i > 0 { assert ns[1..][i - 1].id == id; }
    }
  }

  /** No node before index i has the id of node i: `find` by id stops at node i. */
  predicate FirstWithId(ns: seq<FgNode>, i: int)
    requires 0 <= i < |ns|
  {
    forall j :: 0 <= j < i ==> ns[j].id != ns[i].id
  }

  /** A first occurrence after the head is a first occurrence in the tail, with an id other than the head's. */
  lemma FirstWithIdTail(ns: seq<FgNode>, i: int)
    requires 0 < i < |ns| && FirstWithId(ns, i)
    ensures ns[1..][i - 1] == ns[i] && FirstWithId(ns[1..], i - 1) && ns[i].id != ns[0].id
  {
    forall j | 0 <= j < i - 1 ensures ns[1..][j].id != ns[i].id {
      assert ns[1..][j] == ns[j + 1];
    }
  }

  /** With unique ids, the store holds each node's own position. */
  lemma {:induction false} PositionsLookup(ns: seq<FgNode>, i: int)
    requires UniqueFgIds(ns) && 0 <= i < |ns|
    ensures Positions(ns)[ns[i].id] == ns[i].Position()
    decreases |ns|
  {
    if i > 0 {
      assert UniqueFgIds(ns[1..]) by {
        forall a, b | 0 <= a < b < |ns[1..]| ensures ns[1..][a].id != ns[1..][b].id {
          assert ns[1..][a] == ns[a + 1] && ns[1..][b] == ns[b + 1];
        }
      }
      PositionsLookup(ns[1..], i - 1);
      assert ns[1..][i - 1] == ns[i];
      assert ns[i].id != ns[0].id;
    }
  }

  /**
   The snapshot's position store has one entry per 2D node: its x and y, and
   its z or 0 when the layout gave none.
   */
  lemma SnapshotPositions(g: CyGraph, i: int)
    requires UniqueCyIds(g.nodes) && 0 <= i < |g.nodes|
    ensures var m := Positions(CytoscapeToForceGraph(g).nodes);
            m.Keys == CyNodeIds(g.nodes) && m[g.nodes[i].id] == Flatten(g.nodes[i].position)
  {
    SnapshotKeepsIds(g);
    PositionsLookup(CytoscapeToForceGraph(g).nodes, i);
  }
}
