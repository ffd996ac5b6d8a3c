# Cytoscape to three.js view synchronisation, in Dafny

This project models the synchronisation layer of `cytoscape-threejs.js`. That
file renders one graph in two views: a 2D view laid out by Cytoscape, and a 3D
view. The 3D view exists twice: as a `3d-force-graph` instance, and as a
hand-built three.js scene of sphere meshes and lines. The layer modelled here
keeps the 3D views in step with the 2D layout:

- **Layout bridge** (`cytoscapeToForceGraph`, module `Bridge`). It turns the 2D
  graph into the `{nodes, links}` data that fully replaces the force graph's
  data. z is 0 when the layout gives none.
- **Converging step interpolator** (`smoothUpdate` / `interpolate`, module
  `SmoothUpdate`). Each of 60 timer ticks moves every node that has a target by
  `(target - current) / (steps - k + 1)`. The timer chain becomes an explicit
  tick count. Current positions and targets are two separate maps.
- **Mesh animation** (`animateNodeMovement` / `animate`, module
  `NodeAnimation`). Each frame places a mesh at
  `lerp(start, (tx, ty, 0), min(elapsed / 1000, 1))`. The elapsed time is a
  parameter.
- **Edge buffer rewrite** (`updateEdgePosition`, module `EdgeBuffer`). It writes
  the two endpoints into slots 0..5 of a line's coordinate array and sets the
  dirty flag.
- **Layout-stop handler** (the `layoutstop` listener in
  `updateThreeJSFromCytoscape`, module `LayoutStop`). It makes a best-effort
  pass over the nodes and then over the edges. A missing mesh or line is logged
  and skipped for that item only.
- **Force-graph update** (`updateForceGraph`, module `ForceGraphSync`). It
  replaces the force graph's data, then starts `smoothUpdate`.

All coordinates are `real`. Every equality stated here, such as landing exactly
on the target, holds over the reals. It is not claimed for the browser's
floating point.

Three behaviours of the code are worth stating up front:

- An edge with a missing endpoint mesh is skipped without being logged
  (cytoscape-threejs.js:402-411). `LayoutStop.EdgePass` does the same.
- Each line is rewritten once, inside the handler (cytoscape-threejs.js:387-407),
  from the meshes' first animation frame. See Findings.
- Every node with a matching target is stepped (cytoscape-threejs.js:164-171).
  A node already on target gets a zero step.

## Model

| member | source | states |
|---|---|---|
| Bridge.NodeRecords | cytoscape-threejs.js:136-141 | exactly one record per 2D node, in order, with that node's id, x and y; z is the layout's z, or 0 when absent |
| Bridge.LinkRecords | cytoscape-threejs.js:143-146 | exactly one link per 2D edge, in order, whose source and target are that edge's endpoint ids |
| Bridge.CytoscapeToForceGraph | cytoscape-threejs.js:135-149 | the snapshot is complete: as many nodes and links as the 2D graph has nodes and edges, each carrying its own id/position or endpoints |
| Bridge.SnapshotKeepsIds | cytoscape-threejs.js:135-149 | the snapshot has exactly the 2D graph's node ids, and unique ids stay unique |
| Bridge.SnapshotKeepsEdgesClosed | cytoscape-threejs.js:143-146 | if every 2D edge joins two 2D nodes, every link joins two snapshot nodes (referential integrity is kept) |
| Bridge.Positions | cytoscape-threejs.js:165 | the id-to-position store read from a node list has exactly the list's ids as keys, and each id maps to the position of the first node carrying it, the one `find` returns |
| Bridge.PositionsLookup | cytoscape-threejs.js:165 | with unique ids, looking a node's id up in the store gives that node's own position |
| Bridge.SnapshotPositions | cytoscape-threejs.js:136-141 | the snapshot's store maps each 2D node id to (x, y, z or 0) of that node |
| SmoothUpdate.Approach | cytoscape-threejs.js:168-170 | one axis of a tick: the remaining gap is multiplied by (d-1)/d; with divisor 1 the value lands on the target; a value already on target stays |
| SmoothUpdate.Interpolate | cytoscape-threejs.js:160-172 | a tick keeps the node set, never moves a node without a target, does nothing past `steps`, and on tick `steps` puts every targeted node exactly on its target whatever its current position; the divisor is at least 1 on every tick that runs |
| SmoothUpdate.RunFrom | cytoscape-threejs.js:160-176 | the timer chain from callback k refreshes `steps+1-k` times, runs `steps+2-k` callbacks and then stops; it ends with every targeted node on target and the rest untouched |
| SmoothUpdate.SmoothUpdate | cytoscape-threejs.js:153-179 | with the source's 60 steps, every current node with a target ends on it, others keep their position, 60 refreshes and 61 callbacks |
| SmoothUpdate.TickGap | cytoscape-threejs.js:168-170 | after tick k each axis' gap is the previous gap times (steps-k)/(steps-k+1); its size never grows and its sign never flips |
| SmoothUpdate.AxisTicksLinear | cytoscape-threejs.js:168-170 | on one axis, after n of `steps` ticks the value is exactly lerp(start, target, n/steps): the converging divisor is straight-line interpolation |
| SmoothUpdate.TicksPointwise | cytoscape-threejs.js:164-171 | inside the store, a targeted node moves exactly as it would alone; other nodes and targets do not affect it |
| SmoothUpdate.TicksAreLinear | cytoscape-threejs.js:161-171 | after n of `steps` ticks every targeted node in the store is exactly at lerp(start, target, n/steps) on all three axes |
| SmoothUpdate.TicksKeepKeys | cytoscape-threejs.js:164-166 | however many ticks run, no node is added or removed; targets with no current node are skipped |
| SmoothUpdate.TicksLeaveUntargeted | cytoscape-threejs.js:164-166 | a current node with no target is never modified |
| SmoothUpdate.TicksSettle | cytoscape-threejs.js:161-162 | calls past `steps` change nothing: the state after any n >= steps ticks is the state after `steps` |
| SmoothUpdate.Convergence | cytoscape-threejs.js:161-171 | from tick `steps` on, every current node with a matching target equals that target on x, y and z |
| SmoothUpdate.ConvergenceAll | cytoscape-threejs.js:161-171 | when every node has a target, the whole store equals the targets from tick `steps` on |
| SmoothUpdate.RunFromIsTicks | cytoscape-threejs.js:174-178 | the self-rescheduling timer chain ends in the same state as `steps` counted ticks |
| NodeAnimation.Progress | cytoscape-threejs.js:428-429 | for elapsed >= 0 progress lies in [0, 1], is 1 exactly when elapsed >= 1000 ms, and is elapsed/1000 otherwise |
| NodeAnimation.AnimateFrame | cytoscape-threejs.js:427-436 | a frame reschedules exactly when elapsed < 1000; a frame that stops sits exactly on (tx, ty, 0); at elapsed 0 the mesh is at its start |
| NodeAnimation.Animate | cytoscape-threejs.js:420-439 | the run takes at least one frame, stops at the first frame whose progress is 1, and ends on (tx, ty, 0) whenever some frame reaches the duration |
| NodeAnimation.FramesApproach | cytoscape-threejs.js:428-431 | on every axis a later frame is no farther from the end point than an earlier one |
| NodeAnimation.FrameBetween | cytoscape-threejs.js:428-431 | no overshoot: on each axis every frame lies between the mesh's start and its end point (tx, ty, 0) |
| NodeAnimation.ProgressMonotone | cytoscape-threejs.js:429 | progress never decreases as elapsed time grows |
| Geometry.LerpBetween | cytoscape-threejs.js:431 | with a fraction in [0, 1] each interpolated coordinate lies between start and end, so there is no overshoot |
| EdgeBuffer.WriteEndpoints | cytoscape-threejs.js:443-452 | the array keeps its length; slots 0..5 read back as the two endpoints (z or 0); every slot from 6 on is unchanged |
| EdgeBuffer.UpdateEdgePosition | cytoscape-threejs.js:442-456 | slots 0..5 become src.x, src.y, src.z or 0, tgt.x, tgt.y, tgt.z or 0 where the array has them; other elements are unchanged; `needsUpdate` is true |
| LayoutStop.NodePass | cytoscape-threejs.js:380-391 | the node loop keeps the mesh set; a node is logged exactly when its mesh is missing; each node is either animated or logged; meshes not in the layout stay put |
| LayoutStop.NodePassAnimates | cytoscape-threejs.js:383-387 | with unique ids every node that has a mesh gets an animation from the mesh's position to its layout position, whatever failed before it |
| LayoutStop.Rewritten | cytoscape-threejs.js:405-407 | a rewritten line stays a dirty buffer geometry of the same length whose endpoints read back as the two mesh positions |
| LayoutStop.EdgePass | cytoscape-threejs.js:394-412 | the edge loop keeps the line set and each line's geometry kind; lines of edges not in the layout are untouched; the log is exactly the edges with both endpoints but no buffer-geometry line |
| LayoutStop.EdgePassPerEdge | cytoscape-threejs.js:399-411 | with unique edge ids each edge is treated alone: rewritten if its endpoints and line exist; otherwise left as it was; logged if and only if both endpoints exist and the line is missing or not a buffer geometry; skipped silently if an endpoint is missing |
| LayoutStop.EdgePassConsistent | cytoscape-threejs.js:402-407 | after the edge loop every rewritable line is dirty and holds the current positions of its two endpoint meshes |
| LayoutStop.LayoutStopHandler | cytoscape-threejs.js:375-416 | the handler adds and removes nothing; its log names exactly the nodes without a mesh and the broken edges |
| LayoutStop.LayoutStopIsolation | cytoscape-threejs.js:375-416 | partial-failure isolation: every node with a mesh is animated and every edge with endpoints and a buffer line is rewritten and consistent, whatever other items are missing |
| LayoutStop.AdvanceMeshes | cytoscape-threejs.js:427-434 | advancing the started animations keeps the mesh set, leaves meshes without an animation alone, and puts every animated mesh at the frame of the last animation started on it |
| LayoutStop.AsWrittenLinesStale | cytoscape-threejs.js:383-407 | as written, with unique edge ids, every line the handler rewrote keeps the positions its endpoint meshes had at their first frame, however far the animations run; so the scene is consistent only if neither endpoint mesh has moved since |
| LayoutStop.AnimationFrameWithEdges | cytoscape-threejs.js:402-411 | corrected: rerunning the edge loop on each frame keeps every line consistent with its endpoint meshes |
| LayoutStop.StaleEdgeExample | cytoscape-threejs.js:387-407 | concrete input on which the as-written lines are stale after the animation while the corrected ones match |
| ForceGraphSync.AliasedTicksStill | cytoscape-threejs.js:186-192 | ticks whose targets are the current positions themselves move nothing |
| ForceGraphSync.UpdateForceGraphAsWritten | cytoscape-threejs.js:182-193 | as written, the graph data is the snapshot and the shown positions are the snapshot's at every tick, whatever was shown before |
| ForceGraphSync.UpdateForceGraph | cytoscape-threejs.js:182-193 | corrected: the graph data is the snapshot; at tick 0 surviving nodes are where they were shown; from tick 60 on every node shows its snapshot position |
| ForceGraphSync.UpdateForceGraphIsLinear | cytoscape-threejs.js:182-193 | corrected: a surviving node is at lerp(old, new, n/60) after n ticks |
| ForceGraphSync.AliasingSkipsAnimation | cytoscape-threejs.js:186-192 | concrete input on which the as-written node is already on target after tick 1, while the corrected one has moved 1/60 of the way |

## Left out

- Cytoscape construction, the fcose/random layout option tables, element styles and label templates (cytoscape-threejs.js:12-118, 314-370). They configure an external layout engine whose behaviour is not visible here; the model takes the layout's final positions as input.
- ForceGraph3D setup, the three.js scene, camera, renderer and OrbitControls (cytoscape-threejs.js:120-132, 200-259). These are foreign library calls. The hand-built meshes and lines enter the model as the `Scene` lookup tables. `fg.refresh()` is only counted as a refresh.
- Camera fitting with `Math.tan` and `Math.PI` (cytoscape-threejs.js:262-270): floating-point trigonometry.
- `setTimeout`, `requestAnimationFrame` and `Date.now`. Ticks are an explicit count, and frame times are `elapsed` parameters. The tick interval (1000/60 ms) is therefore not modelled.
- The repeated `cy.on('layoutstop')` registration on every button click (cytoscape-threejs.js:323, 359), which adds one more listener each time. This is event-loop behaviour. Also, `updateThreeJSFromCytoscape` is never called in the file, so its handler is modelled as written but is never installed.
- The view toggle, button CSS classes, the resize handler, and the text of the console messages. Which items get logged is modelled; the message text is not.
- IEEE-754 and `Float32Array` rounding. Exact landing on the target is guaranteed only over the reals.
- `NaN` coordinates, for which JavaScript's `z || 0` also yields 0. Lookups of prototype keys such as `threeJSNodes["toString"]`.
- A line whose `geometry` is undefined, which would throw in the handler. three.js lines always have a geometry.
- SmoothUpdate.Interpolate: targets are a map, so each id is moved at most once per tick. A target list that repeated an id would move that node twice. The graph model's ids are unique.
- LayoutStop.NodePass: the first animation frame, which runs synchronously inside the handler, uses one elapsed time `e0` for every node, rather than a clock read per node.
- Overlapping `smoothUpdate` chains. Each `updateForceGraph` call (cytoscape-threejs.js:182-193) starts a new timer chain. An earlier chain keeps its own step counter and node lists (cytoscape-threejs.js:153-158) and keeps rescheduling itself (cytoscape-threejs.js:175). The model runs one chain from tick 1. As written, an older chain only steps node objects the force graph no longer shows, and because of the aliasing in Findings those steps are zero.
- LayoutStop.AdvanceMeshes: all started animations are advanced by one shared elapsed time, although each animation reads its own start time.

## Findings

| source | as written | input that shows it | evidently intended | confidence | as-written member | corrected member |
|---|---|---|---|---|---|---|
| cytoscape-threejs.js:186-192 | `fg.graphData(newData)` installs the snapshot's node objects, and then `smoothUpdate(newData.nodes)` gets those same objects as targets. `fg.graphData().nodes` finds each target as its own current node, so every step is `(t - t)/d = 0`. The nodes jump to the new layout at once. | node A shown at (0,0,0), new layout puts it at (10,0): after tick 1 A is already at (10,0,0) | A moves along the line from its old position, reaching (10/60, 0, 0) after tick 1 and (10,0,0) after tick 60 | medium, not executed | ForceGraphSync.UpdateForceGraphAsWritten, ForceGraphSync.AliasingSkipsAnimation | ForceGraphSync.UpdateForceGraph |
| cytoscape-threejs.js:387-407 | The handler starts each mesh animation and, in the same synchronous pass, rewrites the lines from the meshes' first-frame positions. Nothing rewrites the lines again, so when an animation ends its lines still point at the old positions. | mesh A at (0,0,0) laid out to (10,0), mesh B at (10,0,0), edge E = (A,B), first frame at 0 ms: after 1000 ms A is at (10,0,0) but E still starts at (0,0,0) | every frame also rewrites the incident lines, so E ends as [(10,0,0), (10,0,0)] | medium, not executed | LayoutStop.AsWrittenLinesStale, LayoutStop.StaleEdgeExample | LayoutStop.AnimationFrameWithEdges |
