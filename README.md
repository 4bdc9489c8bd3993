# BrepBuilder, modelled in Dafny

This project models the boundary-representation builder of jsketcher
(`web/app/brep/brep-builder.js`). A client declares faces (`face`), the loops
of each face given as vertex cycles (`loop`, `edge`, `edgeTrim`) and
vertices (`vertex`). Half-edges are shared through a directed-edge registry
(`EdgeIndex`): the first request for `a -> b` creates the half-edge and its
twin `b -> a`, and later requests return the stored one. `build()` then
finishes the shell in two passes:

1. Pass 1 links every loop of every shell face, so that each of its
   half-edges refers back to it. Every face declared without a carrier
   surface gets the bounding surface of its outer loop.
2. Pass 2 closes the shell. For every edge of every shell face whose twin
   is still in no loop, it allocates a "null" capping face with that
   face's surface. The capping face's outer loop holds the twin alone and
   is linked.

The model also covers the bounding-box part of
`createBoundingSurfaceFrom2DPoints`: the box of the 2D points, widened to a
minimum width and height, then inflated by an offset.

Files and modules:

- `wrappers.dfy` (`Wrappers`): `Option`. It stands for JavaScript's
  `null`/`undefined`.
- `topology.dfy` (`Topology`): the records (half-edge, loop, face), the
  edges of loops and faces, and the well-formedness of the arenas. Object
  identity is an index into an arena, so sharing and aliasing become equal
  indices.
- `edge_index.dfy` (`EdgeIndex`): the registry as a pure function over a
  map and the half-edge arena, with its laws.
- `closure.dfy` (`Closure`): what `build` establishes, stated on values:
  - the shell's edges;
  - linked edges and linked twins;
  - surface inference;
  - the description of the capping faces.
- `brep_builder.dfy` (`Builder`): the `BrepBuilder` class. Its fields are
  the arenas and the `_face`/`_loop` cursors. Its methods update them in
  place.
- `bounding_box.dfy` (`BoundingBox`): the mutable `BBox` class and the
  padding computation. Each is specified by pure functions with lemmas.

Three behaviours of `brep-builder.js` worth knowing:

- The minimum-size padding pulls in the points `(±minWidth/2, 0)` and
  `(0, ±minHeight/2)`. It is therefore centred on the origin of the 2D
  frame, not on the box (`PaddingAroundOrigin`).
- Capping faces are allocated, but they are never appended to
  `_shell.faces` (lines 83-85).
- `lastHalfEdge` on an empty loop yields JavaScript's `undefined` (here
  `None`). It does not fail.

## Model

| member | source | states |
|---|---|---|
| Builder.BrepBuilder.constructor | web/app/brep/brep-builder.js:15-20 | a fresh builder: empty shell and arenas, both cursors null, empty registry, and the well-formedness invariant `Valid` holds |
| Builder.BrepBuilder.LastHalfEdge | web/app/brep/brep-builder.js:22-24 | `None` exactly when the open loop is empty; otherwise an allocated half-edge of the open loop |
| Builder.BrepBuilder.NewFace | web/app/brep/brep-builder.js:26-31 | appends a face with the given surface and a fresh empty outer loop, appends it to the shell, makes it current and clears the loop cursor; `Valid` is kept |
| Builder.BrepBuilder.OpenLoop | web/app/brep/brep-builder.js:34-40 | the first `loop` after `face` selects the outer loop; every later one appends a new inner loop to the current face; the selected loop's face becomes the current face; all other loops are unchanged |
| Builder.BrepBuilder.AddEdge | web/app/brep/brep-builder.js:60-64 | the registry's answer for `a -> b` is appended to the open loop, and no other loop changes; afterwards `lastHalfEdge` runs `a -> b`; earlier half-edges and registry entries are kept |
| Builder.BrepBuilder.AddEdgeTrim | web/app/brep/brep-builder.js:49-58 | `edge(a, b)` handed the trimming closure that `edgeTrim` builds over the given curve, `a` and `b` (the token `TrimFactory(curve, a, b)`); a new pair stores that closure as its curve factory, a known pair ignores it; the open loop gains the half-edge `a -> b` |
| Builder.BrepBuilder.AddCycleEdge | web/app/brep/brep-builder.js:42-44 | one round of the vertex loop: the edge `vs[i] -> vs[(i+1) % n]` joins the open loop, and the partial-cycle state `Cycling` advances from `i` to `i + 1` |
| Builder.BrepBuilder.AddCycle | web/app/brep/brep-builder.js:41-45 | the open loop ends up holding, in order, the registry's half-edge for each cycle edge `vs[i] -> vs[(i+1) % n]`; every other loop is unchanged |
| Builder.BrepBuilder.NewLoop | web/app/brep/brep-builder.js:33-47 | `loop(vertices)`: the cursor step followed by the cycle of edges, with both of their guarantees |
| Builder.BrepBuilder.NewVertex | web/app/brep/brep-builder.js:66-68 | always allocates a new vertex at the given point |
| Builder.BrepBuilder.Link | web/app/brep/brep-builder.js:73 | `loop.link()`: exactly the half-edges of the loop now refer back to it; every other back-reference and every arc is kept; `Valid` is kept |
| Builder.BrepBuilder.LinkLoops | web/app/brep/brep-builder.js:72-74 | linking the loops of a face in order links exactly their edges (`LinkedFrom`), and no existing link is lost |
| Builder.BrepBuilder.InferSurface | web/app/brep/brep-builder.js:75-77 | a face without a surface gets the bounding surface of its outer loop; other faces are untouched |
| Builder.BrepBuilder.LinkShellFace | web/app/brep/brep-builder.js:72-77 | one round of pass 1: surface inference and linking advance from the first `i` shell faces to the first `i + 1` |
| Builder.BrepBuilder.LinkShell | web/app/brep/brep-builder.js:71-78 | pass 1: the faces become `InferSurfaces` of the old faces; every edge of the shell is linked; only shell edges change their links; arcs are kept |
| Builder.BrepBuilder.AddCap | web/app/brep/brep-builder.js:83-85 | a new face with the given surface, whose new outer loop holds `t` alone; only `t` is linked (to that loop); the shell list is not touched |
| Builder.BrepBuilder.CapTwin | web/app/brep/brep-builder.js:81-86 | afterwards the twin of edge `e` is linked; when it already was, nothing changes; otherwise exactly one capping face is added for it: a face with the surface of the shell face at position `i`, whose new outer loop holds the twin alone and is linked to it, and nothing else changes; either way the closure state `Closing` is kept |
| Builder.BrepBuilder.CloseFace | web/app/brep/brep-builder.js:80-87 | afterwards the twin of every edge of the face is linked; links and arcs are kept |
| Builder.BrepBuilder.CloseShell | web/app/brep/brep-builder.js:79-88 | pass 2: the twin of every shell edge is linked; earlier faces and loops are kept; every changed link is a new capping loop's; the faces and loops added are exactly the capping faces described by `Caps` |
| Builder.BrepBuilder.Build | web/app/brep/brep-builder.js:70-90 | returns the declared shell list. Its faces get their surfaces. Every shell edge and its twin are linked. The added faces are the capping faces, each holding one twin and none a shell edge. A half-edge outside the shell keeps its link unless a capping loop takes it. `Valid` is kept |
| EdgeIndex.GetHalfEdgeOrCreate | web/app/brep/brep-builder.js:61 | the stored half-edge for a known pair, with nothing created; for a new pair, two fresh unlinked twins carrying the given curve data; the arena and the registry only grow, and twin pairing and registry consistency are kept |
| EdgeIndex.NewPair | web/app/brep/brep-builder.js:61 | the two half-edges the registry creates for a new pair, `a -> b` and its twin `b -> a`, by definition; that they are paired twins is `CreatePairOk` |
| EdgeIndex.CreatePairOk | web/app/brep/brep-builder.js:61 | a new pair keeps twin pairing and registry consistency and keeps every earlier entry |
| EdgeIndex.ResolveTwiceSame | web/app/brep/brep-builder.js:61 | resolving the same pair twice returns the same half-edge and changes nothing the second time, whatever curve data comes with it |
| EdgeIndex.ResolveReverseIsTwin | web/app/brep/brep-builder.js:61 | for distinct vertices, resolving `b -> a` after `a -> b` returns the twin of the first answer and creates nothing; this is the twin that line 81 reads |
| EdgeIndex.IndexOkSameArcs | web/app/brep/brep-builder.js:73 | linking loops leaves the registry consistent |
| EdgeIndex.CycleFromSnoc | web/app/brep/brep-builder.js:42-44 | appending the registry's half-edge for the next cycle edge extends the partial cycle by one |
| EdgeIndex.Succ | web/app/brep/brep-builder.js:43 | the index after `i` in a cycle of `n` is `(i + 1) % n` |
| Topology.Loops | web/app/brep/brep-builder.js:72 | `face.loops`: the outer loop followed by the inner loops, by definition |
| Topology.FaceEdges | web/app/brep/brep-builder.js:80 | `face.edges`: the half-edges of `face.loops`, loop after loop, by definition; membership by `LoopEdgesMember`, allocation by `LoopEdgesInRange` |
| Topology.LoopEdgesMember | web/app/brep/brep-builder.js:80 | a half-edge is among `face.edges` exactly when one of the face's loops holds it |
| Topology.LoopEdgesInRange | web/app/brep/brep-builder.js:80 | every half-edge of `face.edges` is allocated |
| Topology.TwinsOkSameArcs | web/app/brep/brep-builder.js:73 | twin pairing survives any change of loop back-references |
| Topology.WellFormedRelink | web/app/brep/brep-builder.js:73 | linking a loop keeps the arenas well formed |
| Topology.WellFormedAppendEdge | web/app/brep/brep-builder.js:61-62 | appending a registry answer to a loop keeps the arenas well formed |
| Topology.WellFormedNewCap | web/app/brep/brep-builder.js:83-84 | allocating a capping face and its one-edge loop keeps the arenas well formed |
| Closure.InferSurfaces | web/app/brep/brep-builder.js:71-78 | pass 1's surface assignment (lines 75-77) over the shell faces in order, on values: the face arena keeps its size (what each face becomes, by `InferSurfacesAt`) |
| Closure.ShellEdges | web/app/brep/brep-builder.js:79-80 | the half-edges the second pass visits, `face.edges` for every shell face in order; defined by recursion, with membership by `ShellEdgesMember` and its frame by `ShellEdgesFrame` |
| Closure.ShellEdgesMember | web/app/brep/brep-builder.js:79-80 | a half-edge is visited by the second pass exactly when one of the shell's faces has it among its edges |
| Closure.WithSurface | web/app/brep/brep-builder.js:75-77 | the result always has a surface; a given surface is kept; a missing one becomes the bounding surface of the outer loop; the loops are unchanged |
| Closure.WithSurfaceIdempotent | web/app/brep/brep-builder.js:75-77 | inferring a surface twice changes nothing the second time |
| Closure.InferSurfacesAt | web/app/brep/brep-builder.js:71-78 | after pass 1's inference, a shell face is `WithSurface` of itself and any other face is unchanged |
| Closure.InferSurfacesShellEdges | web/app/brep/brep-builder.js:71-78 | surface inference leaves the shell's edges as they were |
| Closure.LinkedFromTrans | web/app/brep/brep-builder.js:71-74 | linking `es` and then `es'` links `es + es'` |
| Closure.ShellEdgesFrame | web/app/brep/brep-builder.js:79-80 | the shell's edges depend only on its faces' edges |
| Closure.CapsSnoc | web/app/brep/brep-builder.js:82-85 | one more capping face, for an unlinked twin of a shell edge, keeps the description of the capping faces and the new-links-only property |
| Closure.CapsOrphans | web/app/brep/brep-builder.js:82-85 | no capping loop holds a half-edge that was linked when pass 2 began, so none holds a shell edge |
| Closure.CapsEarlier | web/app/brep/brep-builder.js:82 | a capping half-edge unlinked at pass 2 was unlinked before pass 1 too |
| BoundingBox.Include | web/app/brep/brep-builder.js:107-111 | `checkBounds(x, y)`: the result covers `(x, y)` and contains the old box |
| BoundingBox.IncludeTight | web/app/brep/brep-builder.js:107-111 | each side of the result is the old side or the new coordinate |
| BoundingBox.Grow | web/app/brep/brep-builder.js:107 | `forEach checkPoint` on values: the grown box contains the starting box (every point is covered, by `GrowCovers`) |
| BoundingBox.WidenX | web/app/brep/brep-builder.js:109-112 | the X widening on values: the result contains the old box (when it applies and what it reaches, by `WidenXCovers`) |
| BoundingBox.WidenY | web/app/brep/brep-builder.js:113-116 | the Y widening on values: the result contains the old box (see `WidenYCovers`) |
| BoundingBox.Inflate | web/app/brep/brep-builder.js:118-123 | the offset step on values: a non-negative offset gives a box containing the old one, a non-positive offset one inside it (exact sizes by `InflateExact`) |
| BoundingBox.Padded | web/app/brep/brep-builder.js:105-125 | the whole computation on values: with a non-negative offset the result contains the points' box (sizes by `PaddedWidth` and `PaddedHeight`) |
| BoundingBox.BBox.Width | web/app/brep/brep-builder.js:109 | `width()` is the width of the current box |
| BoundingBox.BBox.Height | web/app/brep/brep-builder.js:113 | `height()` is the height of the current box |
| BoundingBox.BBox.constructor | web/app/brep/brep-builder.js:106 | `new BBox()` starts at the inverted box ±`Number.MAX_VALUE` |
| BoundingBox.BBox.CheckBounds | web/app/brep/brep-builder.js:110-111 | the box becomes `Include` of the old box |
| BoundingBox.BBox.CheckPoint | web/app/brep/brep-builder.js:107 | `checkPoint(p)` is `checkBounds(p.x, p.y)` |
| BoundingBox.BBox.CheckPoints | web/app/brep/brep-builder.js:107 | `forEach checkPoint`: the box becomes `Grow` of the old box by the points, in order |
| BoundingBox.BBox.PadWidth | web/app/brep/brep-builder.js:109-112 | the box becomes `WidenX` of the old box |
| BoundingBox.BBox.PadHeight | web/app/brep/brep-builder.js:113-116 | the box becomes `WidenY` of the old box |
| BoundingBox.BBox.Expand | web/app/brep/brep-builder.js:118-123 | the box becomes `Inflate` of the old box by the offset |
| BoundingBox.BoundingBoxFrom2DPoints | web/app/brep/brep-builder.js:105-125 | the box handed to `createBoundingSurfaceFromBBox` is `Padded(points, minWidth, minHeight, offset)` |
| BoundingBox.GrowCovers | web/app/brep/brep-builder.js:106-107 | the grown box contains the starting box and every point |
| BoundingBox.GrowTight | web/app/brep/brep-builder.js:106-107 | for finite points, each side of the box is a coordinate of one of the points |
| BoundingBox.WidenXCovers | web/app/brep/brep-builder.js:109-112 | when the widening applies, the X range covers `±minWidth/2` and the width reaches `minWidth`; otherwise the box is unchanged; either way it only grows |
| BoundingBox.WidenYCovers | web/app/brep/brep-builder.js:113-116 | the same along Y |
| BoundingBox.InflateExact | web/app/brep/brep-builder.js:118-123 | inflating adds the offset to the width and the height and keeps the centre; inflating back by `-offset` restores the box |
| BoundingBox.PaddedCovers | web/app/brep/brep-builder.js:105-125 | with a non-negative offset, the padded box contains every point |
| BoundingBox.PaddedWidth | web/app/brep/brep-builder.js:109-123 | for any minimums and offset, the padded width is at least the points' width plus the offset; with a given non-zero `minWidth` it is at least `minWidth` plus the offset; with neither minimum it is exactly the points' width plus the offset |
| BoundingBox.PaddedHeight | web/app/brep/brep-builder.js:109-123 | the same along Y with `minHeight` |
| BoundingBox.PaddingAroundOrigin | web/app/brep/brep-builder.js:109-123 | concrete boxes: the padding is centred on the origin of the 2D frame (x in [10, 14] with `minWidth` 10 gives [-5, 14]); an offset of 2 moves every side out by 1 |
| BoundingBox.NoPoints | web/app/brep/brep-builder.js:106-107 | no points and no padding leave the inverted initial box |

## Left out

- `Loop.link` also wires each half-edge's next and previous pointers. Only
  the loop back-reference is modelled. `Loop`, `Face` and `HalfEdge` are
  not part of this model, nor are `Loop.tess()`, `Face.edges` and
  `HalfEdge.twin()`. A half-edge's `twin()` becomes its stored `twin`
  index. Their behaviour is assumed:
  - `face.loops` is the outer loop followed by the inner loops;
  - `face.edges` is those loops' half-edges in order;
  - `new Face(surface)` creates an empty outer loop whose face
    back-reference is unset.
- `EdgeIndex` (`web/app/brep/edgeIndex.js`) is not part of this model. It
  is modelled by its contract: a map from ordered vertex pairs to
  half-edges, where a miss creates a twinned pair. When `a == b` both
  entries share one key and only the `a -> b` half-edge is kept. The model
  states twin laws for `a != b` only.
- AddEdgeTrim: the closure `edgeTrim` builds (lines 50-55) is modelled as
  the opaque token `TrimFactory(curve, a, b)` that the registry stores; the
  model does not say what calling it yields. As written, the closure
  reassigns its captured `curve` and has no `return`, so calling it yields
  `undefined`, not the trimmed curve; `param` and `splitByParam` are not
  modelled either.
- AddEdge, AddEdgeTrim, LastHalfEdge, OpenLoop, NewLoop: the code throws a
  TypeError for `loop` before any `face` (line 35) and for `edge`,
  `edgeTrim` or `lastHalfEdge` before any `loop` (lines 62 and 23). The
  model requires `curFace.Some?` or `curLoop.Some?` instead of modelling the
  exception. It also does not capture that a failing `edge` has already
  added a new pair to the registry at line 61 before line 62 throws.
- `createBoundingSurface` (lines 93-103) is not modelled: plane inference
  by `normalOfCCWSeq` and the 2D projection. The surface it makes for a
  face is the symbolic `BoundingOf(outerLoop)`.
- WithSurface: always succeeds. In the code, `createBoundingSurface` reads
  `points[0]` (line 96), so a face declared without a surface whose outer
  loop is empty makes `build` throw; the model does not capture that.
- `createBoundingSurfaceFromBBox` (lines 128-144) builds the NURBS patch
  through verb. It is not modelled; the model stops at the box handed to
  it.
- `BBox` (`modules/math/bbox`) is not part of this model. Its `checkBounds`
  is taken to be the usual min/max update, and its initial bounds
  ±`Number.MAX_VALUE`.
- Coordinates are reals. Floating-point rounding of doubles, NaN and
  infinities are not modelled. `GrowTight` assumes finite coordinates.
- PaddedCovers: states that the points stay inside only for a
  non-negative offset, because a negative offset shrinks the box, as the
  code allows.
- The constructor's unused `edgeStra` argument is left out. So are the
  commented-out debug calls.
- `vertex(x, y, z)` returns a new vertex object. It is modelled as an index
  into a vertex arena. The registry compares vertices by that identity.
- JavaScript truthiness for `face(surface)` is modelled as `Option`. For
  `loop(vertices)`, `NewLoop` takes a plain sequence: a missing vertex list
  is passed as the empty sequence, which adds no edge, as an empty array
  does in the code.
