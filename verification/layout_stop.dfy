/**
 The `layoutstop` handler installed by `updateThreeJSFromCytoscape`. It
 makes one best-effort pass over the 2D nodes, starting a mesh animation for
 each node that has a mesh and logging the others, and then one pass over
 the 2D edges, rewriting the line buffer of each edge whose two endpoint
 meshes exist and logging an edge whose line is missing or is not a buffer
 geometry. A miss is skipped for that item only; the batch always finishes.
 */
module LayoutStop {
  import opened Geometry
  import opened Bridge
  import opened NodeAnimation
  import opened EdgeBuffer

  /** A three.js line: its geometry is the only part the handler touches. */
  datatype EdgeObject = Line(geometry: LineGeometry)

  /** The hand-built scene's lookup tables: node mesh positions and edge lines, by id. */
  datatype Scene = Scene(nodes: map<Id, Point>, edges: map<Id, EdgeObject>)

  /** The diagnostics the handler writes to the console. */
  datatype LogEntry = NodeNotFound(id: Id) | EdgeNotFound(id: Id)

  /** A mesh animation the handler started: which mesh, from where, towards which layout position. */
  datatype Started = Started(id: Id, start: Point, target: Coord)

  // ---- the node pass ----

  /** The state after the node pass: mesh positions, animations started, log. */
  datatype NodePassResult = NodePassResult(nodes: map<Id, Point>, started: seq<Started>, log: seq<LogEntry>)

  /**
   The node loop, in order. A node with a mesh gets an animation, whose
   first frame runs at once with `e0` milliseconds elapsed; a node without
   one is logged. Both directions of the log's meaning are stated.
   */
  function NodePass(ns: seq<CyNode>, nodes: map<Id, Point>, e0: real): (r: NodePassResult)
    requires e0 >= 0.0
    ensures r.nodes.Keys == nodes.Keys
    ensures forall id :: id in nodes && id !in CyNodeIds(ns) ==> r.nodes[id] == nodes[id]
    ensures forall i :: 0 <= i < |ns| && ns[i].id !in nodes ==> NodeNotFound(ns[i].id) in r.log
    ensures forall e :: e in r.log ==> e.NodeNotFound? && e.id !in nodes && e.id in CyNodeIds(ns)
    ensures forall a :: a in r.started ==> a.id in nodes && a.id in CyNodeIds(ns)
    ensures |r.started| + |r.log| == |ns|
    decreases |ns|
  {
    if ns == [] then NodePassResult(nodes, [], [])
    else
      var init := ns[..|ns| - 1];
      var n := ns[|ns| - 1];
      var prev := NodePass(init, nodes, e0);
      CyNodeIdsSnoc(ns);
      if n.id in prev.nodes then
        var start := prev.nodes[n.id];
        NodePassResult(prev.nodes[n.id := AnimateFrame(start, n.position, e0).position],
                       prev.started + [Started(n.id, start, n.position)], prev.log)
      else
        NodePassResult(prev.nodes, prev.started, prev.log + [NodeNotFound(n.id)])
  }

  /** The ids of a node list are those of its front part plus the last one's. */
  lemma CyNodeIdsSnoc(ns: seq<CyNode>)
    requires |ns| > 0
    ensures CyNodeIds(ns) == CyNodeIds(ns[..|ns| - 1]) + {ns[|ns| - 1].id}
  {
    var init := ns[..|ns| - 1];
    forall id | id in CyNodeIds(ns) ensures id in CyNodeIds(init) + {ns[|ns| - 1].id} {
      var i :| 0 <= i < |ns| && ns[i].id == id;
      if i < |ns| - 1 { assert init[i] == ns[i]; }
    }
    forall id | id in CyNodeIds(init) ensures id in CyNodeIds(ns) {
      var i :| 0 <= i < |init| && init[i].id == id;
      assert ns[i] == init[i];
    }
  }

  /**
   With unique node ids, every node that has a mesh is animated from the
   mesh's position towards its layout position, whatever happened to the
   nodes before it, and its mesh shows the animation's first frame.
   */
  lemma {:induction false} NodePassAnimates(ns: seq<CyNode>, nodes: map<Id, Point>, e0: real, i: int)
    requires e0 >= 0.0 && UniqueCyIds(ns) && 0 <= i < |ns| && ns[i].id in nodes
    ensures var r := NodePass(ns, nodes, e0);
            && Started(ns[i].id, nodes[ns[i].id], ns[i].position) in r.started
            && r.nodes[ns[i].id] == AnimateFrame(nodes[ns[i].id], ns[i].position, e0).position
    decreases |ns|
  {
    var init := ns[..|ns| - 1];
    var last := ns[|ns| - 1];
    NodePassUnfold(ns, nodes, e0);
    UniqueCyIdsInit(ns);
    if i < |ns| - 1 {
      assert init[i] == ns[i];
      NodePassAnimates(init, nodes, e0, i);
    } else {
      assert NodePass(init, nodes, e0).nodes[last.id] == nodes[last.id];
    }
  }

  /** Dropping the last node keeps ids unique, and the last id is not among the others. */
  lemma UniqueCyIdsInit(ns: seq<CyNode>)
    requires |ns| > 0 && UniqueCyIds(ns)
    ensures UniqueCyIds(ns[..|ns| - 1])
    ensures ns[|ns| - 1].id !in CyNodeIds(ns[..|ns| - 1])
    ensures forall i :: 0 <= i < |ns| - 1 ==> ns[i].id != ns[|ns| - 1].id
  {
    var init := ns[..|ns| - 1];
    forall a, b | 0 <= a < b < |init| ensures init[a].id != init[b].id {
      assert init[a] == ns[a] && init[b] == ns[b];
    }
    forall j | 0 <= j < |init| ensures init[j].id != ns[|ns| - 1].id {
      assert init[j] == ns[j];
    }
  }

  /** One step of the node loop: what the last node does to the state the others left. */
  lemma NodePassUnfold(ns: seq<CyNode>, nodes: map<Id, Point>, e0: real)
    requires e0 >= 0.0 && |ns| > 0
    ensures var prev := NodePass(ns[..|ns| - 1], nodes, e0);
            var last := ns[|ns| - 1];
            var r := NodePass(ns, nodes, e0);
            && (last.id in prev.nodes ==>
                  && r.nodes == prev.nodes[last.id := AnimateFrame(prev.nodes[last.id], last.position, e0).position]
                  && r.started == prev.started + [Started(last.id, prev.nodes[last.id], last.position)])
            && (last.id !in prev.nodes ==> r.nodes == prev.nodes && r.started == prev.started)
  {
  }

  // ---- the edge pass ----

  /** Both endpoint meshes of an edge exist. */
  predicate Joins(e: CyEdge, meshes: set<Id>) {
    e.source in meshes && e.target in meshes
  }

  /** The edge has a line object whose geometry is a buffer geometry. */
  predicate HasBuffer(edges: map<Id, EdgeObject>, id: Id) {
    id in edges && edges[id].geometry.BufferGeometry?
  }

  /** The ids of a sequence of 2D edges. */
  function CyEdgeIds(es: seq<CyEdge>): set<Id> { set i | 0 <= i < |es| :: es[i].id }

  /** The ids of the edges the handler logs: both endpoints present but no usable line. */
  function BrokenEdgeIds(es: seq<CyEdge>, meshes: set<Id>, edges: map<Id, EdgeObject>): set<Id> {
    set i | 0 <= i < |es| && Joins(es[i], meshes) && !HasBuffer(edges, es[i].id) :: es[i].id
  }

  /** No two 2D edges share an id. */
  predicate UniqueEdgeIds(es: seq<CyEdge>) {
    forall i, j :: 0 <= i < j < |es| ==> es[i].id != es[j].id
  }

  /** The state after the edge pass: the line objects and the log. */
  datatype EdgePassResult = EdgePassResult(edges: map<Id, EdgeObject>, log: seq<LogEntry>)

  /** The line an edge gets: its buffer rewritten from the two mesh positions and marked dirty. */
  function Rewritten(line: EdgeObject, src: Point, tgt: Point): (r: EdgeObject)
    requires line.geometry.BufferGeometry?
    ensures r.geometry.BufferGeometry? && r.geometry.needsUpdate
    ensures |r.geometry.positions| == |line.geometry.positions|
    ensures |line.geometry.positions| >= 6 ==> ReadEndpoints(r.geometry.positions) == (src, tgt)
  {
    Line(BufferGeometry(WriteEndpoints(line.geometry.positions, Lift(src), Lift(tgt)), true))
  }

  /**
   The edge loop, in order, over the mesh positions the node pass left. An
   edge missing an endpoint mesh is skipped without a word; one with both
   endpoints but no buffer-geometry line is logged; the rest are rewritten.
   */
  function EdgePass(es: seq<CyEdge>, nodes: map<Id, Point>, edges: map<Id, EdgeObject>): (r: EdgePassResult)
    ensures r.edges.Keys == edges.Keys
    ensures forall id :: id in edges ==> (HasBuffer(r.edges, id) <==> HasBuffer(edges, id))
    ensures forall id :: id in edges && id !in CyEdgeIds(es) ==> r.edges[id] == edges[id]
    ensures forall i :: 0 <= i < |es| && Joins(es[i], nodes.Keys) && !HasBuffer(edges, es[i].id) ==>
              EdgeNotFound(es[i].id) in r.log
    ensures forall e :: e in r.log ==> e.EdgeNotFound? && e.id in BrokenEdgeIds(es, nodes.Keys, edges)
    decreases |es|
  {
    if es == [] then EdgePassResult(edges, [])
    else
      var init := es[..|es| - 1];
      var e := es[|es| - 1];
      var prev := EdgePass(init, nodes, edges);
      EdgeIdsSnoc(es, nodes.Keys, edges);
      if Joins(e, nodes.Keys) then
        if HasBuffer(prev.edges, e.id) then
          EdgePassResult(prev.edges[e.id := Rewritten(prev.edges[e.id], nodes[e.source], nodes[e.target])], prev.log)
        else
          EdgePassResult(prev.edges, prev.log + [EdgeNotFound(e.id)])
      else
        prev
  }

  /** The id sets of an edge list are those of its front part plus the last edge's. */
  lemma EdgeIdsSnoc(es: seq<CyEdge>, meshes: set<Id>, edges: map<Id, EdgeObject>)
    requires |es| > 0
    ensures CyEdgeIds(es) == CyEdgeIds(es[..|es| - 1]) + {es[|es| - 1].id}
    ensures BrokenEdgeIds(es[..|es| - 1], meshes, edges) <= BrokenEdgeIds(es, meshes, edges)
    ensures var e := es[|es| - 1];
            Joins(e, meshes) && !HasBuffer(edges, e.id) ==> e.id in BrokenEdgeIds(es, meshes, edges)
  {
    var init := es[..|es| - 1];
    forall id | id in CyEdgeIds(es) ensures id in CyEdgeIds(init) + {es[|es| - 1].id} {
      var i :| 0 <= i < |es| && es[i].id == id;
      if i < |es| - 1 { assert init[i] == es[i]; }
    }
    forall id | id in CyEdgeIds(init) ensures id in CyEdgeIds(es) {
      var i :| 0 <= i < |init| && init[i].id == id;
      assert es[i] == init[i];
    }
    forall id | id in BrokenEdgeIds(init, meshes, edges) ensures id in BrokenEdgeIds(es, meshes, edges) {
      var i :| 0 <= i < |init| && Joins(init[i], meshes) && !HasBuffer(edges, init[i].id) && init[i].id == id;
      assert es[i] == init[i];
    }
  }

  /** Dropping the last edge keeps ids unique. */
  lemma UniqueEdgeIdsInit(es: seq<CyEdge>)
    requires |es| > 0 && UniqueEdgeIds(es)
    ensures UniqueEdgeIds(es[..|es| - 1])
    ensures es[|es| - 1].id !in CyEdgeIds(es[..|es| - 1])
  {
    var init := es[..|es| - 1];
    forall a, b | 0 <= a < b < |init| ensures init[a].id != init[b].id {
      assert init[a] == es[a] && init[b] == es[b];
    }
    forall j | 0 <= j < |init| ensures init[j].id != es[|es| - 1].id {
      assert init[j] == es[j];
    }
  }

  /**
   With unique edge ids, each edge is treated on its own: an edge whose
   endpoints and buffer line all exist is rewritten from the endpoint
   positions; any other edge keeps its line; only an edge with both
   endpoints and no usable line is logged.
   */
  lemma {:induction false} EdgePassPerEdge(es: seq<CyEdge>, nodes: map<Id, Point>, edges: map<Id, EdgeObject>, i: int)
    requires UniqueEdgeIds(es) && 0 <= i < |es|
    ensures var r := EdgePass(es, nodes, edges); var e := es[i];
            && (Joins(e, nodes.Keys) && HasBuffer(edges, e.id) ==>
                  r.edges[e.id] == Rewritten(edges[e.id], nodes[e.source], nodes[e.target]))
            && (e.id in edges && !(Joins(e, nodes.Keys) && HasBuffer(edges, e.id)) ==> r.edges[e.id] == edges[e.id])
            && (EdgeNotFound(e.id) in r.log <==> Joins(e, nodes.Keys) && !HasBuffer(edges, e.id))
    decreases |es|
  {
    var init := es[..|es| - 1];
    var last := es[|es| - 1];
    var prev := EdgePass(init, nodes, edges);
    var r := EdgePass(es, nodes, edges);
    UniqueEdgeIdsInit(es);
    EdgeIdsSnoc(es, nodes.Keys, edges);
    if i < |es| - 1 {
      assert init[i] == es[i];
      EdgePassPerEdge(init, nodes, edges, i);
      assert es[i].id != last.id;
      assert EdgeNotFound(es[i].id) in r.log <==> EdgeNotFound(es[i].id) in prev.log;
    } else {
      assert es[i].id !in CyEdgeIds(init);
      assert last.id !in BrokenEdgeIds(init, nodes.Keys, edges) by {
        forall j | 0 <= j < |init| ensures init[j].id != last.id {
          assert init[j].id in CyEdgeIds(init);
        }
      }
      assert EdgeNotFound(last.id) !in prev.log;
    }
  }

  // ---- the handler ----

  /** Every rewritable edge's buffer holds the current positions of its two endpoint meshes. */
  ghost predicate EdgesConsistent(es: seq<CyEdge>, s: Scene) {
    forall i :: 0 <= i < |es| && Joins(es[i], s.nodes.Keys) && HasBuffer(s.edges, es[i].id)
                && |s.edges[es[i].id].geometry.positions| >= 6 ==>
      ReadEndpoints(s.edges[es[i].id].geometry.positions) == (s.nodes[es[i].source], s.nodes[es[i].target])
  }

  /** What one firing of the handler leaves: the scene, the animations it started, the console log. */
  datatype HandlerResult = HandlerResult(scene: Scene, started: seq<Started>, log: seq<LogEntry>)

  /**
   The `layoutstop` handler: the node pass, then the edge pass over the mesh
   positions the node pass left. Nothing is added to or removed from the
   scene; the log names exactly the missing meshes and the broken edges.
   */
  function LayoutStopHandler(cy: CyGraph, scene: Scene, e0: real): (r: HandlerResult)
    requires e0 >= 0.0
    ensures r.scene.nodes.Keys == scene.nodes.Keys && r.scene.edges.Keys == scene.edges.Keys
    ensures forall i :: 0 <= i < |cy.nodes| && cy.nodes[i].id !in scene.nodes ==>
              NodeNotFound(cy.nodes[i].id) in r.log
    ensures forall i :: (0 <= i < |cy.edges| && Joins(cy.edges[i], scene.nodes.Keys)
                         && !HasBuffer(scene.edges, cy.edges[i].id)) ==> EdgeNotFound(cy.edges[i].id) in r.log
    ensures forall e :: e in r.log ==>
              (e.NodeNotFound? && e.id in CyNodeIds(cy.nodes) && e.id !in scene.nodes)
              || (e.EdgeNotFound? && e.id in BrokenEdgeIds(cy.edges, scene.nodes.Keys, scene.edges))
  {
    var np := NodePass(cy.nodes, scene.nodes, e0);
    var ep := EdgePass(cy.edges, np.nodes, scene.edges);
    HandlerResult(Scene(np.nodes, ep.edges), np.started, np.log + ep.log)
  }

  /**
   Partial-failure isolation: with unique ids, a missing mesh or a broken
   edge costs only itself. Every node with a mesh is animated, every edge
   with both endpoints and a buffer line is rewritten, and after the
   handler every such edge matches its endpoint meshes.
   */
  lemma LayoutStopIsolation(cy: CyGraph, scene: Scene, e0: real)
    requires e0 >= 0.0 && UniqueCyIds(cy.nodes) && UniqueEdgeIds(cy.edges)
    ensures var r := LayoutStopHandler(cy, scene, e0);
            && (forall i :: 0 <= i < |cy.nodes| && cy.nodes[i].id in scene.nodes ==>
                  Started(cy.nodes[i].id, scene.nodes[cy.nodes[i].id], cy.nodes[i].position) in r.started)
            && (forall i :: 0 <= i < |cy.edges| && Joins(cy.edges[i], scene.nodes.Keys)
                            && HasBuffer(scene.edges, cy.edges[i].id) ==>
                  r.scene.edges[cy.edges[i].id].geometry.needsUpdate)
            && EdgesConsistent(cy.edges, r.scene)
  {
    var np := NodePass(cy.nodes, scene.nodes, e0);
    forall i | 0 <= i < |cy.nodes| && cy.nodes[i].id in scene.nodes
      ensures Started(cy.nodes[i].id, scene.nodes[cy.nodes[i].id], cy.nodes[i].position) in np.started
    {
      NodePassAnimates(cy.nodes, scene.nodes, e0, i);
    }
    EdgePassConsistent(cy.edges, np.nodes, scene.edges);
  }

  /** After the edge pass every rewritable edge matches the positions it was given. */
  lemma EdgePassConsistent(es: seq<CyEdge>, nodes: map<Id, Point>, edges: map<Id, EdgeObject>)
    requires UniqueEdgeIds(es)
    ensures var r := EdgePass(es, nodes, edges);
            && EdgesConsistent(es, Scene(nodes, r.edges))
            && forall i :: 0 <= i < |es| && Joins(es[i], nodes.Keys) && HasBuffer(edges, es[i].id) ==>
                 r.edges[es[i].id].geometry.needsUpdate
  {
    var r := EdgePass(es, nodes, edges);
    forall i | 0 <= i < |es| && Joins(es[i], nodes.Keys) && HasBuffer(r.edges, es[i].id)
      ensures var g := r.edges[es[i].id].geometry;
              g.needsUpdate && (|g.positions| >= 6 ==> ReadEndpoints(g.positions) == (nodes[es[i].source], nodes[es[i].target]))
    {
      EdgePassPerEdge(es, nodes, edges, i);
    }
  }

  // ---- after the handler: the animations run on, the lines do not ----

  /** Every started animation's frame at `elapsed` milliseconds, in start order; other meshes stay. */
  function AdvanceMeshes(nodes: map<Id, Point>, started: seq<Started>, elapsed: real): (r: map<Id, Point>)
    requires elapsed >= 0.0
    ensures r.Keys == nodes.Keys
    ensures forall id :: id in nodes && (forall j :: 0 <= j < |started| ==> started[j].id != id) ==> r[id] == nodes[id]
    ensures forall j :: 0 <= j < |started| && started[j].id in nodes && LastStarted(started, j) ==>
              r[started[j].id] == AnimateFrame(started[j].start, started[j].target, elapsed).position
    decreases |started|
  {
    if started == [] then nodes
    else
      var init := started[..|started| - 1];
      var prev := AdvanceMeshes(nodes, init, elapsed);
      var a := started[|started| - 1];
      AdvanceMeshesSnoc(nodes, started, prev, elapsed);
      if a.id in prev then prev[a.id := AnimateFrame(a.start, a.target, elapsed).position] else prev
  }

  /** One more animation on top of the earlier ones keeps the three promises of `AdvanceMeshes`. */
  lemma AdvanceMeshesSnoc(nodes: map<Id, Point>, started: seq<Started>, prev: map<Id, Point>, elapsed: real)
    requires elapsed >= 0.0 && |started| > 0
    requires prev.Keys == nodes.Keys
    requires forall id :: id in nodes && (forall j :: 0 <= j < |started| - 1 ==> started[j].id != id) ==> prev[id] == nodes[id]
    requires forall j :: 0 <= j < |started| - 1 && started[j].id in nodes && LastStarted(started[..|started| - 1], j) ==>
               prev[started[j].id] == AnimateFrame(started[j].start, started[j].target, elapsed).position
    ensures var a := started[|started| - 1];
            var r := if a.id in prev then prev[a.id := AnimateFrame(a.start, a.target, elapsed).position] else prev;
            && (forall id :: id in nodes && (forall j :: 0 <= j < |started| ==> started[j].id != id) ==> r[id] == nodes[id])
            && (forall j :: 0 <= j < |started| && started[j].id in nodes && LastStarted(started, j) ==>
                  r[started[j].id] == AnimateFrame(started[j].start, started[j].target, elapsed).position)
  {
    var a := started[|started| - 1];
    var r := if a.id in prev then prev[a.id := AnimateFrame(a.start, a.target, elapsed).position] else prev;
    forall id | id in nodes && (forall j :: 0 <= j < |started| ==> started[j].id != id) ensures r[id] == nodes[id] {
      assert a.id != id;
    }
    forall j | 0 <= j < |started| && started[j].id in nodes && LastStarted(started, j)
      ensures r[started[j].id] == AnimateFrame(started[j].start, started[j].target, elapsed).position
    {
      if j < |started| - 1 {
        LastStartedInit(started, j);
      }
    }
  }

  /** No animation after index j drives the same mesh: j is the one whose frames the mesh ends up showing. */
  predicate LastStarted(started: seq<Started>, j: int)
    requires 0 <= j < |started|
  {
    forall k :: j < k < |started| ==> started[k].id != started[j].id
  }

  /** A last start before the final entry is a last start of the front part, for another mesh than the final one. */
  lemma LastStartedInit(started: seq<Started>, j: int)
    requires 0 <= j < |started| - 1 && LastStarted(started, j)
    ensures started[..|started| - 1][j] == started[j]
    ensures LastStarted(started[..|started| - 1], j)
    ensures started[j].id != started[|started| - 1].id
  {
    var init := started[..|started| - 1];
    forall k | j < k < |init| ensures init[k].id != init[j].id {
      assert init[k] == started[k];
    }
  }

  /**
   The hand-built scene as written, once the handler has run and its mesh
   animations have reached `elapsed` milliseconds: the meshes have moved on,
   but nothing rewrites the lines again, so they keep the buffers the
   handler wrote from the meshes' first-frame positions.
   */
  function AsWrittenAfterAnimation(cy: CyGraph, scene: Scene, e0: real, elapsed: real): (s: Scene)
    requires e0 >= 0.0 && elapsed >= 0.0
    ensures s.nodes.Keys == scene.nodes.Keys
    ensures s.edges == LayoutStopHandler(cy, scene, e0).scene.edges
  {
    var h := LayoutStopHandler(cy, scene, e0);
    Scene(AdvanceMeshes(h.scene.nodes, h.started, elapsed), h.scene.edges)
  }

  /**
   Stale lines, for every input: with unique edge ids, each edge the handler
   rewrote keeps the positions its endpoint meshes had right after the
   handler, that is their first animation frame, however far the
   animations have run since. So the scene can be consistent only if
   neither endpoint mesh has moved since that frame.
   */
  lemma AsWrittenLinesStale(cy: CyGraph, scene: Scene, e0: real, elapsed: real, i: int)
    requires e0 >= 0.0 && elapsed >= 0.0 && UniqueEdgeIds(cy.edges) && 0 <= i < |cy.edges|
    ensures var h := LayoutStopHandler(cy, scene, e0);
            var s := AsWrittenAfterAnimation(cy, scene, e0, elapsed);
            var e := cy.edges[i];
            Joins(e, scene.nodes.Keys) && HasBuffer(scene.edges, e.id) && |scene.edges[e.id].geometry.positions| >= 6 ==>
              && HasBuffer(s.edges, e.id)
              && |s.edges[e.id].geometry.positions| == |scene.edges[e.id].geometry.positions|
              && ReadEndpoints(s.edges[e.id].geometry.positions) == (h.scene.nodes[e.source], h.scene.nodes[e.target])
              && (EdgesConsistent(cy.edges, s) ==>
                    s.nodes[e.source] == h.scene.nodes[e.source] && s.nodes[e.target] == h.scene.nodes[e.target])
  {
    var h := LayoutStopHandler(cy, scene, e0);
    var s := AsWrittenAfterAnimation(cy, scene, e0, elapsed);
    var e := cy.edges[i];
    var np := NodePass(cy.nodes, scene.nodes, e0);
    if Joins(e, scene.nodes.Keys) && HasBuffer(scene.edges, e.id) && |scene.edges[e.id].geometry.positions| >= 6 {
      EdgePassPerEdge(cy.edges, np.nodes, scene.edges, i);
      var line := s.edges[e.id];
      assert line == Rewritten(scene.edges[e.id], np.nodes[e.source], np.nodes[e.target]);
      assert ReadEndpoints(line.geometry.positions) == (h.scene.nodes[e.source], h.scene.nodes[e.target]);
      assert Joins(e, s.nodes.Keys) && HasBuffer(s.edges, e.id) && |line.geometry.positions| >= 6;
    }
  }

  /**
   The scene as evidently intended: each animation frame also reruns the
   edge pass over the meshes' new positions, so every line follows its
   endpoint meshes on every frame, the last one included.
   */
  function AnimationFrameWithEdges(cy: CyGraph, scene: Scene, e0: real, elapsed: real): (s: Scene)
    requires e0 >= 0.0 && elapsed >= 0.0
    ensures s.nodes.Keys == scene.nodes.Keys && s.edges.Keys == scene.edges.Keys
    ensures UniqueEdgeIds(cy.edges) ==> EdgesConsistent(cy.edges, s)
  {
    var h := LayoutStopHandler(cy, scene, e0);
    var meshes := AdvanceMeshes(h.scene.nodes, h.started, elapsed);
    var ep := EdgePass(cy.edges, meshes, h.scene.edges);
    if UniqueEdgeIds(cy.edges) then
      EdgePassConsistent(cy.edges, meshes, h.scene.edges);
      Scene(meshes, ep.edges)
    else
      Scene(meshes, ep.edges)
  }

  /**
   The discrepancy on one edge: mesh A at (0, 0, 0) laid out to (10, 0),
   mesh B already at (10, 0, 0), edge E from A to B. Once A's animation has
   finished, the line as written still starts at (0, 0, 0) while A sits at
   (10, 0, 0); with the per-frame rewrite the line matches both meshes.
   */
  lemma StaleEdgeExample()
    ensures var scene := Scene(map["A" := Point(0.0, 0.0, 0.0), "B" := Point(10.0, 0.0, 0.0)],
                               map["E" := Line(BufferGeometry([0.0, 0.0, 0.0, 10.0, 0.0, 0.0], false))]);
            var cy := CyGraph([CyNode("A", Coord(10.0, 0.0, Wrappers.None)), CyNode("B", Coord(10.0, 0.0, Wrappers.None))],
                              [CyEdge("E", "A", "B")]);
            && !EdgesConsistent(cy.edges, AsWrittenAfterAnimation(cy, scene, 0.0, Duration))
            && EdgesConsistent(cy.edges, AnimationFrameWithEdges(cy, scene, 0.0, Duration))
  {
    var scene := Scene(map["A" := Point(0.0, 0.0, 0.0), "B" := Point(10.0, 0.0, 0.0)],
                       map["E" := Line(BufferGeometry([0.0, 0.0, 0.0, 10.0, 0.0, 0.0], false))]);
    var cy := CyGraph([CyNode("A", Coord(10.0, 0.0, Wrappers.None)), CyNode("B", Coord(10.0, 0.0, Wrappers.None))],
                      [CyEdge("E", "A", "B")]);
    var h := LayoutStopHandler(cy, scene, 0.0);
    var np := NodePass(cy.nodes, scene.nodes, 0.0);
    assert UniqueCyIds(cy.nodes);
    NodePassAnimates(cy.nodes, scene.nodes, 0.0, 0);
    NodePassAnimates(cy.nodes, scene.nodes, 0.0, 1);
    assert np.nodes["A"] == Point(0.0, 0.0, 0.0);
    assert UniqueEdgeIds(cy.edges);
    EdgePassPerEdge(cy.edges, np.nodes, scene.edges, 0);
    var line := h.scene.edges["E"].geometry.positions;
    assert ReadEndpoints(line).0 == Point(0.0, 0.0, 0.0);
    assert |h.started| == 2 && h.started[1].id == "B";
    var after := AsWrittenAfterAnimation(cy, scene, 0.0, Duration);
    assert h.started[0] == Started("A", Point(0.0, 0.0, 0.0), Coord(10.0, 0.0, Wrappers.None));
    assert after.nodes["A"] == Point(10.0, 0.0, 0.0);
    assert Joins(cy.edges[0], after.nodes.Keys) && HasBuffer(after.edges, "E");
  }
}
