# FlowEditor connector layer in Dafny

This project models the connector layer of a small canvas flow editor. The
editor shows rectangular nodes. The user links two nodes by selecting one,
then ctrl-clicking the other. Each link is drawn as a line from an anchor point on the facing side
of one rectangle, through two control points, to an anchor point on the
facing side of the other. Dragging a node
recomputes the curves of its links. The Delete key removes the selected node's
links or the selected curve's link.

Modules:

- `Types`: the shared vocabulary. `Point` and `Rect` are values. `Block` is the
  node object, whose position is changed in place by dragging.
  `Line` is the opaque handle of a rendered curve.
- `Geometry` (`geometry.ts`), pure:
  - the segment-intersection test with its bounding-box, straddle and collinear
    branches, including the `1e-10` tolerance. Over exact reals it holds iff
    the two segments share a point;
  - the side-midpoint anchors;
  - the connector route: the side choice along the dominant axis, and control
    points 10 units out, signed by the displacement;
  - the eight numbers of a curve's `points` attribute in drawing order, as
    `Connection.update` emits them in `manager.ts` and `connect.ts`.
  JavaScript numbers are modelled by exact reals.
- `ConnectionKeys`: the shared key scheme.
  - A key is `id1 + "_" + id2`, in that order.
  - `IndexOf` models `String.prototype.indexOf`, counting characters.
  - `Mentions` is the incidence test `key.indexOf(id) !== -1` that both
    registries use. It is exactly substring containment, and it reports false
    positives: node `"1"` is taken to be involved in key `"12_3"`.
- `Manager` (`manager.ts`), imperative:
  - `Connection` keeps its four points and the curve's `points` attribute in
    step with its two endpoint nodes.
  - `EditorManager` holds `nodes`, the map `connections` from keys to
    connections, and the selection (`activeNode`, `activeLine`).
  - The event handlers become `Click`, `Drag` and `KeyUp`. `Click` and `Drag`
    take a `Target` (node, curve or background); `KeyUp` takes the key code.
  - The registry invariant `Registered` says that every key is the key of its
    connection's endpoints and that no two connections share a curve. Every
    mutating method preserves it.
- `LegacyConnect` (`connect.ts`), mixed: the older `ConnectionManager`. Its
  anchors are the same as the geometry engine's. Its control points come from
  the two anchors only and have no sign adjustment. In the vertical case the
  second control point is at `start.y - 10`, whatever the end's y.

Two behaviours of the code are easy to miss:

- A connection is identified by its ordered key `id1_id2`, not by the unordered
  pair of nodes. Connecting B to A after A to B adds a second connection when
  the ids are distinct and contain no `_` (`ReversedKeysDiffer`). Ids
  containing `_` can make different pairs share one key
  (`SeparatorInIdsCollides`).
- Removing a node removes its connections, but the node stays in `nodes`: only
  `destroy` clears that list.

## Model

| member | source | states |
|---|---|---|
| Geometry.PointOnSegmentInBox | src/components/FlowEditor/geometry.ts:49-60 | a point reported on a segment lies inside the segment's bounding box |
| Geometry.EndpointsOnSegment | src/components/FlowEditor/geometry.ts:49-67 | both endpoints of a segment are reported on it (the cross product is 0, below the 1e-10 tolerance) |
| Geometry.IntersectImpliesBoxesMeet | src/components/FlowEditor/geometry.ts:18-26 | whenever the test reports an intersection, the two bounding boxes share a point; segments with disjoint boxes are never reported |
| Geometry.CrossAlong | src/components/FlowEditor/geometry.ts:9-11 | the cross product is affine in its third point: moving it a fraction t along a second segment adds t times the cross product of the two directions |
| Geometry.StraddleAlgebra | src/components/FlowEditor/geometry.ts:29-32 | with c the cross product of the directions, d2 = d1 + c and d4 = d3 - c, and the two weighted means of the endpoints with weights from d1 and d3 agree in each coordinate |
| Geometry.StraddleIntersects | src/components/FlowEditor/geometry.ts:28-37 | two segments that properly straddle each other's lines are reported as intersecting: the bounding-box rejection can never fire for them |
| Geometry.IntersectSymmetric | src/components/FlowEditor/geometry.ts:14-46 | the test gives the same answer with the two segments swapped |
| Geometry.SharedEndpointIntersects | src/components/FlowEditor/geometry.ts:39-43 | segments sharing an endpoint are reported as intersecting (touching counts) |
| Geometry.CrossingExample | src/components/FlowEditor/geometry.ts:34-37 | the X-shaped pair (0,0)-(10,10) and (0,10)-(10,0) intersects |
| Geometry.ParallelExample | src/components/FlowEditor/geometry.ts:18-26 | the parallel pair (0,0)-(1,0) and (0,5)-(1,5) does not intersect |
| Geometry.CollinearTouchExample | src/components/FlowEditor/geometry.ts:39-40 | the collinear pair (0,0)-(5,0) and (5,0)-(10,0) meets at (5,0) and is reported |
| Geometry.IntersectionPoint | src/components/FlowEditor/geometry.ts:28-43 | soundness: whenever the test reports an intersection, some point lies exactly on both segments (on each one's line and inside its bounding box) |
| Geometry.StraddlePoint | src/components/FlowEditor/geometry.ts:28-37 | under a proper straddle, the directions are not parallel (c, the cross product of the directions, is not 0), and the point at fraction d3/c along the first segment, which is the point at fraction -d1/c along the second, lies on both segments |
| Geometry.EndpointOnOtherIntersects | src/components/FlowEditor/geometry.ts:39-43 | an endpoint of either segment lying on the other one, at its end or in its middle (a T-junction), is reported |
| Geometry.CommonPointIntersects | src/components/FlowEditor/geometry.ts:14-46 | completeness: a point on both segments makes the test report an intersection, whether the segments cross, meet at an endpoint or overlap on one line |
| Geometry.IntersectIffCommonPoint | src/components/FlowEditor/geometry.ts:14-46 | over exact coordinates the test holds iff the two segments share a point |
| Geometry.ToleranceExample | src/components/FlowEditor/geometry.ts:62-66 | `isPointOnSegment` alone accepts the point (1, 0.000000000525) on (0,0)-(2, 0.000000001), which is off the line |
| Geometry.AnchorsAreSideMidpoints | src/components/FlowEditor/geometry.ts:69-77 | each anchor is the midpoint of the two corners of its side, and lies on the rectangle's outline when the size is not negative |
| Geometry.SideChoice | src/components/FlowEditor/geometry.ts:99-116 | four cases for start and end: right to left or left to right when abs(dx) > abs(dy), otherwise bottom to top or top to bottom; ties go vertical; zero displacement goes from the top of A to the bottom of B |
| Geometry.ControlPoints | src/components/FlowEditor/geometry.ts:118-129 | the control points are 10·sign(dx) along x in the horizontal case, or 10·sign(dy) along y in the vertical case, out from start and back from end |
| Geometry.ControlsBowOutward | src/components/FlowEditor/geometry.ts:118-129 | unless the centres coincide, each control point is exactly 10 from its anchor, control1 on B's side of start and control2 on A's side of end |
| Geometry.ConcentricRoute | src/components/FlowEditor/geometry.ts:99-129 | concentric rectangles get top of A to bottom of B, with control points equal to the anchors (sign 0) |
| Geometry.MirrorSymmetry | src/components/FlowEditor/geometry.ts:99-131 | for distinct centres, swapping the rectangles swaps start with end and control1 with control2 |
| Geometry.EndpointsOnBoundary | src/components/FlowEditor/geometry.ts:115-116 | for non-negative sizes, start lies on A's outline and end on B's outline |
| Geometry.SideBySideExample | src/components/FlowEditor/geometry.ts:80-132 | A = (0,0,200,100) and B = (400,0,200,100) give start (200,50), end (400,50), control1 (210,50) and control2 (390,50) |
| Geometry.Path | src/components/FlowEditor/manager.ts:27-36 | the curve's points attribute has exactly eight numbers |
| Geometry.PathRoundTrip | src/components/FlowEditor/manager.ts:27-36 | the eight numbers in the order start, control1, control2, end determine the route, and every eight numbers come from one route |
| ConnectionKeys.IndexOf | src/components/FlowEditor/manager.ts:96 | indexOf gives -1 exactly when the id does not occur in the key; otherwise it gives the first position where it occurs |
| ConnectionKeys.MentionsIsSubstring | src/components/FlowEditor/manager.ts:123 | the incidence test `key.indexOf(id) !== -1` holds iff the id is a substring of the key |
| ConnectionKeys.ConnectKeyMentionsBoth | src/components/FlowEditor/manager.ts:117-119 | a key contains both ids it was built from, so the incidence test finds every real endpoint |
| ConnectionKeys.SplitConnectKey | src/components/FlowEditor/connect.ts:139-141 | splitting a key at its first `_` gives back the two ids when the first id has no `_` |
| ConnectionKeys.ConnectKeyInjective | src/components/FlowEditor/manager.ts:117-119 | when the first ids have no `_`, equal keys come from equal ordered pairs |
| ConnectionKeys.ReversedKeysDiffer | src/components/FlowEditor/connect.ts:131-141 | for distinct ids without `_`, the reversed pair has a different key, so connecting it adds a second connection |
| ConnectionKeys.SeparatorInIdsCollides | src/components/FlowEditor/manager.ts:117-119 | ids containing `_` collide: "a"/"a_a" in either order, and ("a_b","c") with ("a","b_c") |
| ConnectionKeys.MentionsFalsePositive | src/components/FlowEditor/manager.ts:94-99 | node "1" counts as involved in the key "12_3" of the connection between "12" and "3" |
| Manager.Connection.constructor | src/components/FlowEditor/manager.ts:14-18 | a new connection keeps its two endpoints, owns a fresh curve, and its points and curve are in step with the endpoints' current rectangles |
| Manager.Connection.Update | src/components/FlowEditor/manager.ts:20-37 | afterwards start, end, control1 and control2 are the route of the endpoints' current rectangles, and the curve shows them as eight numbers in drawing order |
| Manager.MatchLineSelectsKey | src/components/FlowEditor/manager.ts:43-45 | in a registered map, `matchLine` accepts exactly the connections of the keys rendered by that curve, and when it accepts one, its key is the only such key |
| Manager.EndpointsMentioned | src/components/FlowEditor/manager.ts:121-127 | in a registered map, every connection with the node as an endpoint has a key that mentions the node's id |
| Manager.LineKeysAtMostOne | src/components/FlowEditor/manager.ts:103-110 | in a registered map, a curve renders at most one connection, so stopping at the first match loses nothing |
| Manager.EditorManager.constructor | src/components/FlowEditor/manager.ts:57-67 | a new editor has no nodes, no connections and no selection |
| Manager.EditorManager.AddNode | src/components/FlowEditor/manager.ts:69-84 | appends a fresh 200 by 100 node at (100, 100) with the given id; nothing else changes |
| Manager.EditorManager.Connect | src/components/FlowEditor/manager.ts:86-92 | if the ordered key is taken, returns nothing and changes nothing; otherwise it adds exactly that key, mapped to a fresh connection between the two nodes with up-to-date points, and returns it. Existing connections are untouched and the registry invariant holds |
| Manager.ConnectTwiceScenario | src/components/FlowEditor/manager.ts:86-92 | connecting A (0,0,200,100) to B (400,0,200,100) yields the connector (200,50) to (400,50); connecting them again adds nothing and leaves the single key A_B |
| Manager.EditorManager.RemoveConnection | src/components/FlowEditor/manager.ts:112-115 | removes exactly the given key, with no effect when it is absent |
| Manager.EditorManager.RemoveNode | src/components/FlowEditor/manager.ts:94-101 | removes exactly the keys containing the node's id. Afterwards no key mentions it and no connection has the node as an endpoint; all other entries stay as they were |
| Manager.EditorManager.RemoveLine | src/components/FlowEditor/manager.ts:103-110 | removes exactly the connection rendered by the curve (at most one), and nothing when there is none |
| Manager.EditorManager.Refresh | src/components/FlowEditor/manager.ts:121-127 | the key set stays the same. Every connection whose key mentions the node, and so every connection with it as an endpoint, is brought in step with the current rectangles; every other connection is left unchanged, and the registry invariant still holds |
| Manager.EditorManager.Destroy | src/components/FlowEditor/manager.ts:136-140 | afterwards there are no nodes and no connections |
| Manager.EditorManager.DeleteActiveItem | src/components/FlowEditor/manager.ts:142-149 | removes the selected node's connections, then the selected curve's connection; the selection is kept |
| Manager.EditorManager.HandleActiveNodeChange | src/components/FlowEditor/manager.ts:151-165 | connects the previous node to the new one exactly when both are nodes and ctrl is held; otherwise the registry is unchanged |
| Manager.EditorManager.Click | src/components/FlowEditor/manager.ts:182-200 | a click on a node selects it and clears the curve selection; a click on a curve selects it and clears the node; a click on the background clears both. A ctrl-click from a selected node to a node connects them |
| Manager.EditorManager.Drag | src/components/FlowEditor/manager.ts:202-207 | dragging a node refreshes exactly the connections whose keys mention it; any other target changes nothing; the registry invariant still holds |
| Manager.EditorManager.KeyUp | src/components/FlowEditor/manager.ts:209-215 | the "Delete" key deletes the active items; every other key changes nothing |
| Manager.MoveScenario | src/components/FlowEditor/manager.ts:121-127 | with A left of B and connected to it, moving A to x = 700 and refreshing A puts the connector from A's left side (700,50) to B's right side (600,50) |
| Manager.RemoveNodeScenario | src/components/FlowEditor/manager.ts:94-101 | with connections A_B and B_C, removing node A leaves exactly the B_C entry |
| LegacyConnect.SameAnchors | src/components/FlowEditor/connect.ts:13-20 | the older anchors equal the geometry engine's |
| LegacyConnect.SameEndpoints | src/components/FlowEditor/connect.ts:23-57 | the older start and end equal the geometry engine's |
| LegacyConnect.ControlPointCases | src/components/FlowEditor/connect.ts:59-81 | horizontal-first iff abs(end.x - start.x) > abs(end.y - start.y). Then the controls are (start.x+10, start.y) and (end.x-10, end.y); otherwise (start.x, start.y+10) and (end.x, start.y-10). control1 is always 10 from start in the positive direction |
| LegacyConnect.VerticalControlIgnoresEndY | src/components/FlowEditor/connect.ts:75-80 | going straight down from (0,0) to (0,100), control2 is (0,-10), above the start, and the same as for an end at (0,500); the geometry engine gives (0,90) |
| LegacyConnect.RightwardControlsAgree | src/components/FlowEditor/connect.ts:63-74 | for a rightward connector whose anchors are also further apart in x, the two variants give the same control points |
| LegacyConnect.Connection.constructor | src/components/FlowEditor/connect.ts:90-93 | a new connection keeps its endpoints, owns a fresh curve, and is in step with the endpoints' current rectangles |
| LegacyConnect.Connection.Update | src/components/FlowEditor/connect.ts:95-114 | afterwards start and end are the anchors of the current rectangles, the controls are derived from those two anchors, and the curve shows the eight numbers in drawing order |
| LegacyConnect.ConnectionManager.constructor | src/components/FlowEditor/connect.ts:126-129 | starts with no connections |
| LegacyConnect.ConnectionManager.Connect | src/components/FlowEditor/connect.ts:131-137 | connecting the same ordered pair twice changes nothing; otherwise it adds exactly the new key, mapped to a fresh, up-to-date connection; existing connections are untouched |
| LegacyConnect.ConnectTwiceScenario | src/components/FlowEditor/connect.ts:131-137 | connecting a to b twice leaves the single key a_b; connecting b to a then adds b_a |
| LegacyConnect.ConnectionManager.Refresh | src/components/FlowEditor/connect.ts:143-149 | the key set stays the same; the connections whose key mentions the node are brought in step, and all others are unchanged |

## Left out

- Rendering is not modelled. This covers adding curves and nodes to the tree
  (`app.tree.add`), curve and node styling (`getLine`'s stroke, width and
  corner radius, `setAttr('stroke', …)` in `handleActiveNodeChange` and
  `handleActiveLineChange`), `Connection.remove`/`line.remove()`,
  `block.remove()` and `app.destroy()`. A curve is an opaque `Line` handle
  compared by identity, and `points` records the attribute last set.
- `handleActiveLineChange` is left out because it only restyles curves.
  `resetView` is left out because it only resets the view transform.
- `uid()` and the theme constants are not part of this model. `AddNode` takes
  the new id as a parameter.
- Event registration (`app.on`) and `instanceof` dispatch are not modelled.
  The three handlers are the methods `Click`, `Drag` and `KeyUp`, and the event
  target is the `Target` datatype. For a click, only `ctrlKey` is passed.
- JavaScript numbers are modelled by exact reals, with no rounding, NaN or
  infinities. `Math.sign(-0)` and `-0` are not distinguished from 0.
- `Map` iteration follows insertion order; the loops here take keys from a set
  in an arbitrary order. For `removeNode` and `refresh` the result does not
  depend on the order, because the updated connections are distinct objects.
  For `removeLine`, at most one key matches.
- `IndexOf` counts positions in characters (Unicode scalar values), whereas
  `String.prototype.indexOf` counts UTF-16 code units, and `IndexOfFrom` with an
  empty pattern past the end gives -1 where JavaScript clamps. Only the
  `!== -1` test is used, and substring containment does not depend on either.
- Dragging itself (the rendering library moving a node) is an assignment to a
  `Block`'s fields between calls. `MoveScenario` shows one.
- ConnectionKeys.ReversedKeysDiffer: requires ids without `_`, because with
  `_` in an id the reversed pair can have the same key
  (`SeparatorInIdsCollides`).
- Geometry.MirrorSymmetry: requires distinct centres, because concentric
  rectangles always go from top to bottom whichever is first
  (`ConcentricRoute`).
