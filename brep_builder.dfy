/** `BrepBuilder`: the declaration cursor machine (`face`, `loop`, `edge`)
    that assembles a shell, and `build`, which links every loop, gives every
    face a carrier surface and closes the shell with null faces. */
module Builder {
  import opened Wrappers
  import opened Topology
  import opened EdgeIndex
  import opened Closure

  class BrepBuilder {
    /** Every face object allocated: those of the shell and the null faces of `build`. */
    var faces: seq<Face>
    /** Every loop object allocated. */
    var loops: seq<Loop>
    /** Every half-edge object allocated (by the edge registry). */
    var halfEdges: seq<HalfEdge>
    /** The points of the vertices `vertex(x, y, z)` allocated. */
    var vertices: seq<Point>
    /** `_shell.faces`. */
    var shellFaces: seq<FaceId>
    /** `_face`, the current face. */
    var curFace: Option<FaceId>
    /** `_loop`, the current loop. */
    var curLoop: Option<LoopId>
    /** `edgeIndex`, the directed-edge registry. */
    var edgeIndex: Index

    /** The arenas are well formed, the registry is consistent with them,
        an open loop is a loop of the current face, and a face whose loop
        cursor is still unset has an empty outer loop. */
    ghost predicate Valid()
      reads this
    {
      WellFormed(faces, loops, halfEdges) &&
      IndexOk(edgeIndex, halfEdges) &&
      ShellOk(shellFaces, faces, |loops|) &&
      (curFace.Some? ==> curFace.value < |faces|) &&
      (curLoop.Some? ==>
         curFace.Some? && curLoop.value < |loops| && curLoop.value in Loops(faces[curFace.value])) &&
      (curFace.Some? && curLoop.None? ==> loops[faces[curFace.value].outerLoop].halfEdges == [])
    }

    /** `h` is the half-edge the registry holds for `a -> b`, and it runs from `a` to `b`. */
    ghost predicate EdgeFor(h: HalfEdgeId, a: VertexId, b: VertexId)
      reads this
    {
      EdgeAt(edgeIndex, halfEdges, h, a, b)
    }

    constructor ()
      ensures Valid()
      ensures faces == [] && loops == [] && halfEdges == [] && vertices == [] && shellFaces == []
      ensures curFace == None && curLoop == None && edgeIndex == map[]
    {
      faces, loops, halfEdges, vertices, shellFaces := [], [], [], [], [];
      curFace, curLoop := None, None;
      edgeIndex := map[];
    }

    /** `lastHalfEdge`: the last half-edge of the open loop; JavaScript's
        `undefined` (here `None`) when that loop is still empty. */
    function LastHalfEdge(): (r: Option<HalfEdgeId>)
      reads this
      requires Valid() && curLoop.Some?
      ensures r.None? <==> loops[curLoop.value].halfEdges == []
      ensures r.Some? ==> r.value < |halfEdges| && r.value in loops[curLoop.value].halfEdges
    {
      var hs := loops[curLoop.value].halfEdges;
      if hs == [] then None
      else
        assert LoopOk(loops[curLoop.value], |faces|, |halfEdges|) && hs[|hs| - 1] in hs;
        Some(hs[|hs| - 1])
    }

    /** `face(surface)`: appends a new face to the shell, makes it the
        current face and closes the loop cursor. */
    method NewFace(surface: Option<Surface>)
      requires Valid()
      modifies this`faces, this`loops, this`shellFaces, this`curFace, this`curLoop
      ensures Valid()
      ensures faces == old(faces) + [Face(surface, |old(loops)|, [])]
      ensures loops == old(loops) + [Loop(None, [])]
      ensures shellFaces == old(shellFaces) + [|old(faces)|]
      ensures curFace == Some(|old(faces)|) && curLoop == None
    {
      var outer := |loops|;
      WellFormedNewFace(faces, loops, halfEdges, surface);
      loops := loops + [Loop(None, [])];
      faces := faces + [Face(surface, outer, [])];
      shellFaces := shellFaces + [|faces| - 1];
      curFace, curLoop := Some(|faces| - 1), None;
    }

    /** `vertex(x, y, z)`: always a new vertex, never one found by its coordinates. */
    method NewVertex(x: real, y: real, z: real) returns (v: VertexId)
      modifies this`vertices
      ensures vertices == old(vertices) + [Point(x, y, z)]
      ensures v == |old(vertices)| && vertices[v] == Point(x, y, z)
    {
      v := |vertices|;
      vertices := vertices + [Point(x, y, z)];
    }

    /** `edge(a, b, curveCreate, invertedToCurve, tag)`: resolves the
        half-edge `a -> b` through the registry and appends it to the open
        loop; no other loop changes. */
    method AddEdge(a: VertexId, b: VertexId, curve: Option<CurveFactory>, invertedToCurve: bool, tag: Option<nat>)
      requires Valid() && curLoop.Some?
      modifies this`loops, this`halfEdges, this`edgeIndex
      ensures Valid()
      ensures var r := GetHalfEdgeOrCreate(old(edgeIndex), old(halfEdges), a, b, curve, invertedToCurve, tag);
              edgeIndex == r.index && halfEdges == r.halfEdges &&
              loops == old(loops)[curLoop.value := Loop(old(loops)[curLoop.value].face,
                                                        old(loops)[curLoop.value].halfEdges + [r.he])]
      ensures LastHalfEdge().Some? && EdgeFor(LastHalfEdge().value, a, b)
      // what `loop(vertices)` relies on: earlier half-edges and registry entries stay
      ensures |old(halfEdges)| <= |halfEdges| && halfEdges[..|old(halfEdges)|] == old(halfEdges)
      ensures forall k <- old(edgeIndex) :: k in edgeIndex && edgeIndex[k] == old(edgeIndex)[k]
    {
      var r := GetHalfEdgeOrCreate(edgeIndex, halfEdges, a, b, curve, invertedToCurve, tag);
      var cl := curLoop.value;
      WellFormedAppendEdge(faces, loops, halfEdges, r.halfEdges, cl, r.he);
      edgeIndex, halfEdges := r.index, r.halfEdges;
      loops := loops[cl := Loop(loops[cl].face, loops[cl].halfEdges + [r.he])];
    }

    /** `edgeTrim(a, b, curve)`: `edge(a, b)` handed the closure that
        `edgeTrim` builds over `curve`, `a` and `b`; a new pair stores that
        closure as its curve factory. */
    method AddEdgeTrim(a: VertexId, b: VertexId, curve: CurveId)
      requires Valid() && curLoop.Some?
      modifies this`loops, this`halfEdges, this`edgeIndex
      ensures Valid()
      ensures var r := GetHalfEdgeOrCreate(old(edgeIndex), old(halfEdges), a, b, Some(TrimFactory(curve, a, b)), false, None);
              edgeIndex == r.index && halfEdges == r.halfEdges &&
              loops == old(loops)[curLoop.value := Loop(old(loops)[curLoop.value].face,
                                                        old(loops)[curLoop.value].halfEdges + [r.he])]
      ensures LastHalfEdge().Some? && EdgeFor(LastHalfEdge().value, a, b)
    {
      AddEdge(a, b, Some(TrimFactory(curve, a, b)), false, None);
    }

    /** The cursor step of `loop`: the first call after `face` selects the
        face's outer loop, every later one appends a new inner loop; the
        selected loop's face becomes the current face. */
    method OpenLoop()
      requires Valid() && curFace.Some?
      modifies this`faces, this`loops, this`curLoop
      ensures Valid()
      ensures curLoop.Some? && curLoop.value < |loops| && loops[curLoop.value] == Loop(curFace, [])
      ensures old(curLoop).None? ==>
        curLoop == Some(old(faces)[curFace.value].outerLoop) &&
        faces == old(faces) && |loops| == |old(loops)|
      ensures old(curLoop).Some? ==>
        curLoop == Some(|old(loops)|) && |loops| == |old(loops)| + 1 &&
        faces == old(faces)[curFace.value := old(faces)[curFace.value].(
                   innerLoops := old(faces)[curFace.value].innerLoops + [|old(loops)|])]
      ensures forall l :: 0 <= l < |old(loops)| && Some(l) != curLoop ==> loops[l] == old(loops)[l]
    {
      var f := curFace.value;
      if curLoop.None? {
        curLoop := Some(faces[f].outerLoop);
      } else {
        var l := |loops|;
        WellFormedNewInnerLoop(faces, loops, halfEdges, f);
        loops := loops + [Loop(None, [])];
        faces := faces[f := faces[f].(innerLoops := faces[f].innerLoops + [l])];
        curLoop := Some(l);
        assert l in Loops(faces[f]);
      }
      var cl := curLoop.value;
      WellFormedSetLoopFace(faces, loops, halfEdges, cl, f);
      loops := loops[cl := loops[cl].(face := Some(f))];
    }

    /** The edge step of `loop(vertices)`: the open, still empty loop
        receives the edges `vs[i] -> vs[(i + 1) % n]`, in order. */
    method AddCycle(vs: seq<VertexId>)
      requires Valid() && curLoop.Some? && loops[curLoop.value].halfEdges == []
      modifies this`loops, this`halfEdges, this`edgeIndex
      ensures Valid()
      ensures |loops| == |old(loops)| && loops[curLoop.value].face == old(loops)[curLoop.value].face
      ensures forall l :: 0 <= l < |loops| && l != curLoop.value ==> loops[l] == old(loops)[l]
      ensures CycleEdges(edgeIndex, halfEdges, loops[curLoop.value].halfEdges, vs, |vs|)
      ensures |old(halfEdges)| <= |halfEdges| && halfEdges[..|old(halfEdges)|] == old(halfEdges)
      ensures forall k <- old(edgeIndex) :: k in edgeIndex && edgeIndex[k] == old(edgeIndex)[k]
    {
      for i := 0 to |vs|
        invariant Valid() && Cycling(vs, i, old(loops), old(halfEdges), old(edgeIndex))
      {
        AddCycleEdge(vs, i, old(loops), old(halfEdges), old(edgeIndex));
      }
    }

    /** The state part-way through `loop(vertices)`: see `CycleFrom`. */
    ghost predicate Cycling(vs: seq<VertexId>, n: nat, loops0: seq<Loop>, hes0: seq<HalfEdge>, index0: Index)
      reads this
    {
      curLoop.Some? && CycleFrom(loops, halfEdges, edgeIndex, curLoop.value, vs, n, loops0, hes0, index0)
    }

    /** One round of `loop(vertices)`: the edge from the `i`-th vertex to
        the next one is added to the open loop. */
    method AddCycleEdge(vs: seq<VertexId>, i: nat, ghost loops0: seq<Loop>, ghost hes0: seq<HalfEdge>,
                        ghost index0: Index)
      requires Valid() && i < |vs| && Cycling(vs, i, loops0, hes0, index0)
      modifies this`loops, this`halfEdges, this`edgeIndex
      ensures Valid() && Cycling(vs, i + 1, loops0, hes0, index0)
    {
      var cl := curLoop.value;
      ghost var loopsI, hesI, indexI := loops, halfEdges, edgeIndex;
      AddEdge(vs[i], vs[Succ(i, |vs|)], None, false, None);
      CycleFromSnoc(loopsI, hesI, indexI, loops, halfEdges, edgeIndex, cl, LastHalfEdge().value, vs, i, loops0, hes0, index0);
    }

    /** `loop(vertices)`: opens a loop of the current face (`OpenLoop`) and
        gives it the edges `vs[i] -> vs[(i + 1) % n]` (`AddCycle`). */
    method NewLoop(vs: seq<VertexId>)
      requires Valid() && curFace.Some?
      modifies this`faces, this`loops, this`halfEdges, this`edgeIndex, this`curLoop
      ensures Valid()
      ensures curLoop.Some? && curLoop.value < |loops| && loops[curLoop.value].face == curFace
      ensures old(curLoop).None? ==>
        curLoop == Some(old(faces)[curFace.value].outerLoop) &&
        faces == old(faces) && |loops| == |old(loops)|
      ensures old(curLoop).Some? ==>
        curLoop == Some(|old(loops)|) && |loops| == |old(loops)| + 1 &&
        faces == old(faces)[curFace.value := old(faces)[curFace.value].(
                   innerLoops := old(faces)[curFace.value].innerLoops + [|old(loops)|])]
      ensures forall l :: 0 <= l < |old(loops)| && Some(l) != curLoop ==> loops[l] == old(loops)[l]
      ensures CycleEdges(edgeIndex, halfEdges, loops[curLoop.value].halfEdges, vs, |vs|)
      ensures |old(halfEdges)| <= |halfEdges| && halfEdges[..|old(halfEdges)|] == old(halfEdges)
      ensures forall k <- old(edgeIndex) :: k in edgeIndex && edgeIndex[k] == old(edgeIndex)[k]
    {
      OpenLoop();
      AddCycle(vs);
    }

    /** `loop.link()`: every half-edge of loop `l` refers back to `l`;
        nothing else changes. (The next/previous wiring is not modelled.) */
    method Link(l: LoopId)
      requires Valid() && l < |loops|
      modifies this`halfEdges
      ensures Valid()
      ensures SameArcs(old(halfEdges), halfEdges)
      ensures forall x :: 0 <= x < |halfEdges| ==>
        halfEdges[x].loop == if x in loops[l].halfEdges then Some(l) else old(halfEdges)[x].loop
      ensures LinkedFrom(old(halfEdges), halfEdges, loops[l].halfEdges)
    {
      var hs := loops[l].halfEdges;
      assert LoopOk(loops[l], |faces|, |halfEdges|);
      for k := 0 to |hs|
        invariant SameArcs(old(halfEdges), halfEdges)
        invariant forall h <- hs :: h < |halfEdges|
        invariant forall x :: 0 <= x < |halfEdges| ==>
          halfEdges[x].loop == if x in hs[..k] then Some(l) else old(halfEdges)[x].loop
      {
        assert hs[..k + 1] == hs[..k] + [hs[k]] && hs[k] in hs;
        halfEdges := halfEdges[hs[k] := halfEdges[hs[k]].(loop := Some(l))];
      }
      assert hs[..|hs|] == hs;
      WellFormedRelink(faces, loops, old(halfEdges), halfEdges, l);
      IndexOkSameArcs(edgeIndex, old(halfEdges), halfEdges);
      assert LoopOk(loops[l], |faces|, |halfEdges|);
    }

    /** `for (let loop of face.loops) loop.link()`: links the loops `ls`
        in order; only their half-edges are (re)linked. */
    method LinkLoops(ls: seq<LoopId>)
      requires Valid() && LoopsIn(ls, |loops|)
      modifies this`halfEdges
      ensures Valid()
      ensures LinkedFrom(old(halfEdges), halfEdges, LoopEdges(ls, loops))
    {
      for j := 0 to |ls|
        invariant Valid()
        invariant LinkedFrom(old(halfEdges), halfEdges, LoopEdges(ls[..j], loops))
      {
        ghost var hesJ := halfEdges;
        Link(ls[j]);
        assert ls[..j + 1][..j] == ls[..j];
        LinkedFromTrans(old(halfEdges), hesJ, halfEdges, LoopEdges(ls[..j], loops), loops[ls[j]].halfEdges);
      }
      assert ls[..|ls|] == ls;
    }

    /** `face.surface = createBoundingSurface(face.outerLoop.tess())` when
        the face has no carrier: face `f` gets `WithSurface`. */
    method InferSurface(f: FaceId)
      requires Valid() && f < |faces|
      modifies this`faces
      ensures Valid()
      ensures faces == old(faces)[f := WithSurface(old(faces)[f])]
    {
      WellFormedReplaceFace(faces, loops, halfEdges, f, WithSurface(faces[f]));
      faces := faces[f := WithSurface(faces[f])];
      assert forall k :: 0 <= k < |shellFaces| ==> FaceOk(faces[shellFaces[k]], |loops|);
    }

    /** One round of the first pass of `build` (lines 72-77): the loops of
        the `i`-th shell face are linked to it and its surface is inferred. */
    method LinkShellFace(i: nat, ghost faces0: seq<Face>, ghost hes0: seq<HalfEdge>)
      requires Valid() && i < |shellFaces| && ShellOk(shellFaces, faces0, |loops|)
      requires faces == InferSurfaces(faces0, shellFaces[..i])
      requires LinkedFrom(hes0, halfEdges, ShellEdges(shellFaces[..i], faces0, loops))
      modifies this`faces, this`halfEdges
      ensures Valid()
      ensures faces == InferSurfaces(faces0, shellFaces[..i + 1])
      ensures LinkedFrom(hes0, halfEdges, ShellEdges(shellFaces[..i + 1], faces0, loops))
    {
      var f := shellFaces[i];
      ghost var hesI := halfEdges;
      InferSurfacesLoops(faces0, shellFaces[..i], f);
      LinkLoops(Loops(faces[f]));
      LinkedFromTrans(hes0, hesI, halfEdges, ShellEdges(shellFaces[..i], faces0, loops), FaceEdges(faces0[f], loops));
      assert shellFaces[..i + 1][..i] == shellFaces[..i];
      InferSurface(f);
    }

    /** The first pass of `build`: every loop of every shell face is
        linked, and every shell face without a carrier gets the bounding
        surface of its outer loop. Only half-edges of shell faces are
        (re)linked, and no link is lost. */
    method LinkShell()
      requires Valid()
      modifies this`faces, this`halfEdges
      ensures Valid()
      ensures faces == InferSurfaces(old(faces), shellFaces)
      ensures LinkedFrom(old(halfEdges), halfEdges, ShellEdges(shellFaces, faces, loops))
    {
      ghost var faces0, hes0 := faces, halfEdges;
      for i := 0 to |shellFaces|
        invariant Valid()
        invariant faces == InferSurfaces(faces0, shellFaces[..i])
        invariant LinkedFrom(hes0, halfEdges, ShellEdges(shellFaces[..i], faces0, loops))
      {
        LinkShellFace(i, faces0, hes0);
      }
      assert shellFaces[..|shellFaces|] == shellFaces;
      InferSurfacesShellEdges(faces0, shellFaces, loops);
    }

    /** Lines 83-85: `new Face(face.surface)`, whose outer loop receives
        the half-edge `t` alone and is linked. The face is allocated but
        not added to the shell. */
    method AddCap(surface: Option<Surface>, t: HalfEdgeId)
      requires Valid() && t < |halfEdges|
      modifies this`faces, this`loops, this`halfEdges
      ensures Valid()
      ensures faces == old(faces) + [Face(surface, |old(loops)|, [])]
      ensures loops == old(loops) + [Loop(None, [t])]
      ensures halfEdges == old(halfEdges)[t := old(halfEdges)[t].(loop := Some(|old(loops)|))]
    {
      var l := |loops|;
      WellFormedNewCap(faces, loops, halfEdges, surface, t);
      faces := faces + [Face(surface, l, [])];
      loops := loops + [Loop(None, [t])];
      assert ShellOk(shellFaces, faces, |loops|) by {
        assert forall k :: 0 <= k < |shellFaces| ==> faces[shellFaces[k]] == old(faces)[shellFaces[k]];
      }
      Link(l);
      assert forall x :: 0 <= x < |halfEdges| ==> (x in loops[l].halfEdges <==> x == t);
    }

    /** The state of a closure pass begun with faces `faces0`, loops
        `loops0` and half-edges `hes0`: those faces and loops are still in
        place, every changed back-reference is a new link, and the faces
        and loops past them are the capping faces listed by `origin`. */
    ghost predicate Closing(faces0: seq<Face>, loops0: seq<Loop>, hes0: seq<HalfEdge>, origin: seq<nat>)
      reads this
    {
      Valid() && ShellOk(shellFaces, faces0, |loops0|) &&
      |faces0| <= |faces| && faces[..|faces0|] == faces0 &&
      |loops0| <= |loops| && loops[..|loops0|] == loops0 &&
      SameArcs(hes0, halfEdges) && LinksOnlyNew(hes0, halfEdges, |loops0|) &&
      Caps(faces, loops, halfEdges, hes0, |faces0|, |loops0|, shellFaces, origin)
    }

    /** The body of the inner loop of the second pass, for the edge `e` of
        the shell face at position `i`: when the twin of `e` is unlinked, a
        capping face with that shell face's surface is allocated for it. */
    method CapTwin(e: HalfEdgeId, i: nat, ghost faces0: seq<Face>, ghost loops0: seq<Loop>,
                   ghost hes0: seq<HalfEdge>, ghost origin0: seq<nat>) returns (ghost origin: seq<nat>)
      requires Closing(faces0, loops0, hes0, origin0)
      requires i < |shellFaces| && e in FaceEdges(faces0[shellFaces[i]], loops0)
      modifies this`faces, this`loops, this`halfEdges
      ensures Closing(faces0, loops0, hes0, origin)
      ensures KeepsLinks(old(halfEdges), halfEdges) && SameArcs(old(halfEdges), halfEdges)
      ensures e < |halfEdges| && halfEdges[e].twin < |halfEdges| && halfEdges[halfEdges[e].twin].loop.Some?
      ensures old(halfEdges)[old(halfEdges)[e].twin].loop.Some? ==> unchanged(this) && origin == origin0
      ensures var t := old(halfEdges)[e].twin;
              old(halfEdges)[t].loop.None? ==>
                origin == origin0 + [i] &&
                faces == old(faces) + [Face(old(faces)[shellFaces[i]].surface, |old(loops)|, [])] &&
                loops == old(loops) + [Loop(None, [t])] &&
                halfEdges == old(halfEdges)[t := old(halfEdges)[t].(loop := Some(|old(loops)|))]
    {
      origin := origin0;
      var f := shellFaces[i];
      assert faces[f] == faces[..|faces0|][f];
      FaceEdgesGrown(faces0[f], loops0, loops);
      LoopEdgesInRange(Loops(faces[f]), loops, |faces|, |halfEdges|);
      var t := halfEdges[e].twin;
      assert TwinOf(halfEdges[t], e, halfEdges[e]);
      if halfEdges[t].loop.None? {
        CapsSnoc(faces, loops, halfEdges, hes0, |faces0|, |loops0|, shellFaces, origin, i, t);
        AddCap(faces[f].surface, t);
        origin := origin + [i];
      }
    }

    /** The inner loop of the second pass, over the edges of the shell face
        at position `i`: afterwards the twin of each of them is linked. */
    method CloseFace(i: nat, ghost faces0: seq<Face>, ghost loops0: seq<Loop>,
                     ghost hes0: seq<HalfEdge>, ghost origin0: seq<nat>) returns (ghost origin: seq<nat>)
      requires Closing(faces0, loops0, hes0, origin0)
      requires i < |shellFaces|
      modifies this`faces, this`loops, this`halfEdges
      ensures Closing(faces0, loops0, hes0, origin)
      ensures KeepsLinks(old(halfEdges), halfEdges) && SameArcs(old(halfEdges), halfEdges)
      ensures FaceOk(faces0[shellFaces[i]], |loops0|) &&
              TwinsLinked(halfEdges, FaceEdges(faces0[shellFaces[i]], loops0))
    {
      origin := origin0;
      var f := shellFaces[i];
      assert faces[f] == faces[..|faces0|][f];
      FaceEdgesGrown(faces0[f], loops0, loops);
      var es := FaceEdges(faces[f], loops);
      for j := 0 to |es|
        invariant Closing(faces0, loops0, hes0, origin)
        invariant es == FaceEdges(faces0[f], loops0)
        invariant KeepsLinks(old(halfEdges), halfEdges) && SameArcs(old(halfEdges), halfEdges)
        invariant TwinsLinked(halfEdges, es[..j])
      {
        ghost var hesJ := halfEdges;
        origin := CapTwin(es[j], i, faces0, loops0, hes0, origin);
        KeepsLinksTrans(old(halfEdges), hesJ, halfEdges);
        TwinsLinkedKept(hesJ, halfEdges, es[..j]);
        TwinsLinkedSnoc(halfEdges, es, j);
      }
      assert es[..|es|] == es;
    }

    /** The second pass of `build`: for every edge of every shell face, in
        order, whose twin is still unlinked, a capping face is allocated
        (`AddCap`) with the surface of that shell face. Afterwards the
        twin of every edge of the shell is linked; earlier faces, loops
        and links are kept. `origin` records, per capping face, the
        position in the shell of the face it was created for. */
    method CloseShell() returns (ghost origin: seq<nat>)
      requires Valid()
      modifies this`faces, this`loops, this`halfEdges
      ensures Valid()
      ensures |old(faces)| <= |faces| && faces[..|old(faces)|] == old(faces)
      ensures |old(loops)| <= |loops| && loops[..|old(loops)|] == old(loops)
      ensures SameArcs(old(halfEdges), halfEdges) && LinksOnlyNew(old(halfEdges), halfEdges, |old(loops)|)
      ensures Caps(faces, loops, halfEdges, old(halfEdges), |old(faces)|, |old(loops)|, shellFaces, origin)
      ensures TwinsLinked(halfEdges, ShellEdges(shellFaces, faces, loops))
    {
      ghost var faces0, loops0, hes0 := faces, loops, halfEdges;
      origin := [];
      assert faces[..|faces0|] == faces0 && loops[..|loops0|] == loops0;
      for i := 0 to |shellFaces|
        invariant Closing(faces0, loops0, hes0, origin)
        invariant TwinsLinked(halfEdges, ShellEdges(shellFaces[..i], faces0, loops0))
      {
        ghost var hesI := halfEdges;
        origin := CloseFace(i, faces0, loops0, hes0, origin);
        TwinsLinkedKept(hesI, halfEdges, ShellEdges(shellFaces[..i], faces0, loops0));
        assert shellFaces[..i + 1][..i] == shellFaces[..i];
        TwinsLinkedConcat(halfEdges, ShellEdges(shellFaces[..i], faces0, loops0), FaceEdges(faces0[shellFaces[i]], loops0));
      }
      assert shellFaces[..|shellFaces|] == shellFaces;
      forall k | 0 <= k < |shellFaces|
        ensures FaceEdges(faces[shellFaces[k]], loops) == FaceEdges(faces0[shellFaces[k]], loops0)
      {
        assert faces[shellFaces[k]] == faces[..|faces0|][shellFaces[k]];
        FaceEdgesGrown(faces0[shellFaces[k]], loops0, loops);
      }
      ShellEdgesFrame(shellFaces, faces0, loops0, faces, loops);
    }

    /** `build()`: links every loop of the shell and gives every shell face
        a surface (`LinkShell`), then closes the shell with capping faces
        (`CloseShell`), and returns the shell, whose face list is the one
        declared: capping faces are allocated but never added to it. */
    method Build() returns (shell: seq<FaceId>, ghost origin: seq<nat>)
      requires Valid()
      modifies this`faces, this`loops, this`halfEdges
      ensures Valid()
      ensures shell == shellFaces
      // the declared faces get their surfaces and keep their loops; the declared loops are kept
      ensures |old(faces)| <= |faces| && faces[..|old(faces)|] == InferSurfaces(old(faces), shell)
      ensures forall k :: 0 <= k < |shell| ==> faces[shell[k]].surface.Some?
      ensures |old(loops)| <= |loops| && loops[..|old(loops)|] == old(loops)
      ensures SameArcs(old(halfEdges), halfEdges)
      // closure: every edge of the shell, and the twin of every edge of the shell, is linked
      ensures AllLinked(halfEdges, ShellEdges(shell, faces, loops))
      ensures TwinsLinked(halfEdges, ShellEdges(shell, faces, loops))
      // the capping faces: one per twin left unlinked, none holding a half-edge of the shell
      ensures Caps(faces, loops, halfEdges, old(halfEdges), |old(faces)|, |old(loops)|, shell, origin)
      ensures forall l, k :: |old(loops)| <= l < |loops| && 0 <= k < |loops[l].halfEdges| ==>
        loops[l].halfEdges[k] !in ShellEdges(shell, faces, loops)
      // a half-edge outside the shell keeps its link unless a capping face takes it in
      ensures forall x :: 0 <= x < |halfEdges| && x !in ShellEdges(shell, faces, loops) ==>
        halfEdges[x].loop == old(halfEdges)[x].loop ||
        (old(halfEdges)[x].loop.None? && halfEdges[x].loop.Some? && |old(loops)| <= halfEdges[x].loop.value)
    {
      ghost var faces0, loops0, hes0 := faces, loops, halfEdges;
      LinkShell();
      ghost var faces1, hes1 := faces, halfEdges;
      ghost var es := ShellEdges(shellFaces, faces1, loops);
      origin := CloseShell();
      shell := shellFaces;
      forall k | 0 <= k < |shell|
        ensures FaceEdges(faces[shell[k]], loops) == FaceEdges(faces1[shell[k]], loops0)
        ensures faces[shell[k]].surface.Some?
      {
        assert faces[shell[k]] == faces[..|faces1|][shell[k]];
        FaceEdgesGrown(faces1[shell[k]], loops0, loops);
        InferSurfacesAt(faces0, shell, shell[k]);
      }
      ShellEdgesFrame(shell, faces1, loops0, faces, loops);
      AllLinkedKept(hes1, halfEdges, es);
      CapsOrphans(faces, loops, halfEdges, hes1, |faces0|, |loops0|, shell, origin, es);
      CapsEarlier(faces, loops, halfEdges, hes1, hes0, |faces0|, |loops0|, shell, origin);
      forall h | 0 <= h < |hes0| ensures halfEdges[h].(loop := hes0[h].loop) == hes0[h] {
        assert halfEdges[h].(loop := hes1[h].loop) == hes1[h];
        assert hes1[h].(loop := hes0[h].loop) == hes0[h];
      }
    }
  }
}

