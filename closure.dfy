/** What `build` establishes, stated on the arenas: the edges of a shell
    (`face.edges` over `shell.faces`), linked half-edges and twins, the
    surface a face is given, and the capping ("null") faces the closure
    pass allocates. */
module Closure {
  import opened Wrappers
  import opened Topology

  /** Every face the shell lists is allocated and names allocated loops. */
  predicate ShellOk(shell: seq<FaceId>, faces: seq<Face>, loopCount: nat)
  {
    forall k :: 0 <= k < |shell| ==> shell[k] < |faces| && FaceOk(faces[shell[k]], loopCount)
  }

  /** The half-edges of every face of the shell, face after face. */
  function ShellEdges(shell: seq<FaceId>, faces: seq<Face>, loops: seq<Loop>): seq<HalfEdgeId>
    requires ShellOk(shell, faces, |loops|)
  {
    if shell == [] then []
    else ShellEdges(shell[..|shell| - 1], faces, loops) + FaceEdges(faces[shell[|shell| - 1]], loops)
  }

  /** The shell's edges depend only on the edges of its faces. */
  lemma {:induction false} ShellEdgesFrame(shell: seq<FaceId>, faces: seq<Face>, loops: seq<Loop>,
                                           faces': seq<Face>, loops': seq<Loop>)
    requires ShellOk(shell, faces, |loops|) && ShellOk(shell, faces', |loops'|)
    requires forall k :: 0 <= k < |shell| ==>
      FaceEdges(faces'[shell[k]], loops') == FaceEdges(faces[shell[k]], loops)
    ensures ShellEdges(shell, faces', loops') == ShellEdges(shell, faces, loops)
  {
    if shell != [] {
      ShellEdgesFrame(shell[..|shell| - 1], faces, loops, faces', loops');
    }
  }

  /** A half-edge is among the shell's edges exactly when one of the
      shell's faces has it among its edges. */
  lemma {:induction false} ShellEdgesMember(shell: seq<FaceId>, faces: seq<Face>, loops: seq<Loop>, h: HalfEdgeId)
    requires ShellOk(shell, faces, |loops|)
    ensures h in ShellEdges(shell, faces, loops) <==>
            exists k :: 0 <= k < |shell| && h in FaceEdges(faces[shell[k]], loops)
  {
    if shell != [] {
      var init, last := shell[..|shell| - 1], shell[|shell| - 1];
      assert ShellOk(init, faces, |loops|) by {
        forall k | 0 <= k < |init| ensures init[k] == shell[k] { }
      }
      ShellEdgesMember(init, faces, loops, h);
      var head, tail := ShellEdges(init, faces, loops), FaceEdges(faces[last], loops);
      assert ShellEdges(shell, faces, loops) == head + tail;
      if h in head {
        var k :| 0 <= k < |init| && h in FaceEdges(faces[init[k]], loops);
        assert shell[k] == init[k];
      } else if h in tail {
        assert shell[|shell| - 1] == last;
      } else {
        forall k | 0 <= k < |shell| ensures h !in FaceEdges(faces[shell[k]], loops) {
          if k < |init| {
            assert shell[k] == init[k];
          }
        }
      }
    }
  }

  /** A face's edges are unchanged when faces and loops are only appended to. */
  lemma FaceEdgesGrown(fc: Face, loops: seq<Loop>, loops': seq<Loop>)
    requires FaceOk(fc, |loops|) && |loops| <= |loops'| && loops'[..|loops|] == loops
    ensures FaceOk(fc, |loops'|) && FaceEdges(fc, loops') == FaceEdges(fc, loops)
  {
    forall k | 0 <= k < |Loops(fc)| ensures loops'[Loops(fc)[k]] == loops[Loops(fc)[k]] {
      assert loops'[..|loops|][Loops(fc)[k]] == loops[Loops(fc)[k]];
    }
    LoopEdgesFrame(Loops(fc), loops, loops');
  }

  /** Every half-edge of `hs` is linked into some loop. */
  predicate AllLinked(hes: seq<HalfEdge>, hs: seq<HalfEdgeId>)
  {
    forall k :: 0 <= k < |hs| ==> hs[k] < |hes| && hes[hs[k]].loop.Some?
  }

  /** The twin of every half-edge of `hs` is linked into some loop. */
  predicate TwinsLinked(hes: seq<HalfEdge>, hs: seq<HalfEdgeId>)
  {
    forall k :: 0 <= k < |hs| ==> hs[k] < |hes| && hes[hs[k]].twin < |hes| && hes[hes[hs[k]].twin].loop.Some?
  }

  /** `hes'` keeps every link of `hes`, possibly re-targeted. */
  predicate KeepsLinks(hes: seq<HalfEdge>, hes': seq<HalfEdge>)
  {
    |hes'| == |hes| && forall x :: 0 <= x < |hes| && hes[x].loop.Some? ==> hes'[x].loop.Some?
  }

  /** Keeping the arcs and the links is transitive. */
  lemma KeepsLinksTrans(hes0: seq<HalfEdge>, hes1: seq<HalfEdge>, hes2: seq<HalfEdge>)
    requires SameArcs(hes0, hes1) && KeepsLinks(hes0, hes1)
    requires SameArcs(hes1, hes2) && KeepsLinks(hes1, hes2)
    ensures SameArcs(hes0, hes2) && KeepsLinks(hes0, hes2)
  {
    forall h | 0 <= h < |hes0| ensures hes2[h].(loop := hes0[h].loop) == hes0[h] {
      assert hes2[h].(loop := hes1[h].loop) == hes1[h];
      assert hes1[h].(loop := hes0[h].loop) == hes0[h];
    }
  }

  /** `hes` is `hes0` with the half-edges `es` linked (some perhaps
      re-linked) and every other back-reference kept. */
  predicate LinkedFrom(hes0: seq<HalfEdge>, hes: seq<HalfEdge>, es: seq<HalfEdgeId>)
  {
    SameArcs(hes0, hes) && KeepsLinks(hes0, hes) && AllLinked(hes, es) &&
    forall x :: 0 <= x < |hes| && x !in es ==> hes[x].loop == hes0[x].loop
  }

  /** Linking `es` and then `es'` links `es + es'`. */
  lemma LinkedFromTrans(hes0: seq<HalfEdge>, hes1: seq<HalfEdge>, hes2: seq<HalfEdge>,
                        es: seq<HalfEdgeId>, es': seq<HalfEdgeId>)
    requires LinkedFrom(hes0, hes1, es) && LinkedFrom(hes1, hes2, es')
    ensures LinkedFrom(hes0, hes2, es + es')
  {
    forall h | 0 <= h < |hes0| ensures hes2[h].(loop := hes0[h].loop) == hes0[h] {
      assert hes2[h].(loop := hes1[h].loop) == hes1[h];
      assert hes1[h].(loop := hes0[h].loop) == hes0[h];
    }
    AllLinkedKept(hes1, hes2, es);
    AllLinkedConcat(hes2, es, es');
  }

  lemma AllLinkedKept(hes: seq<HalfEdge>, hes': seq<HalfEdge>, hs: seq<HalfEdgeId>)
    requires AllLinked(hes, hs) && KeepsLinks(hes, hes')
    ensures AllLinked(hes', hs)
  {
  }

  lemma AllLinkedConcat(hes: seq<HalfEdge>, hs: seq<HalfEdgeId>, hs': seq<HalfEdgeId>)
    requires AllLinked(hes, hs) && AllLinked(hes, hs')
    ensures AllLinked(hes, hs + hs')
  {
    forall k | |hs| <= k < |hs + hs'| ensures (hs + hs')[k] < |hes| && hes[(hs + hs')[k]].loop.Some? {
      assert (hs + hs')[k] == hs'[k - |hs|];
    }
  }

  lemma TwinsLinkedKept(hes: seq<HalfEdge>, hes': seq<HalfEdge>, hs: seq<HalfEdgeId>)
    requires TwinsLinked(hes, hs) && KeepsLinks(hes, hes') && SameArcs(hes, hes')
    ensures TwinsLinked(hes', hs)
  {
    forall k | 0 <= k < |hs| ensures hes'[hes'[hs[k]].twin].loop.Some? {
      assert hes'[hs[k]].(loop := hes[hs[k]].loop) == hes[hs[k]];
    }
  }

  lemma TwinsLinkedConcat(hes: seq<HalfEdge>, hs: seq<HalfEdgeId>, hs': seq<HalfEdgeId>)
    requires TwinsLinked(hes, hs) && TwinsLinked(hes, hs')
    ensures TwinsLinked(hes, hs + hs')
  {
    forall k | |hs| <= k < |hs + hs'|
      ensures (hs + hs')[k] < |hes| && hes[(hs + hs')[k]].twin < |hes| && hes[hes[(hs + hs')[k]].twin].loop.Some?
    {
      assert (hs + hs')[k] == hs'[k - |hs|];
    }
  }

  /** One more half-edge of `es` with its twin linked. */
  lemma TwinsLinkedSnoc(hes: seq<HalfEdge>, es: seq<HalfEdgeId>, j: nat)
    requires j < |es| && TwinsLinked(hes, es[..j])
    requires es[j] < |hes| && hes[es[j]].twin < |hes| && hes[hes[es[j]].twin].loop.Some?
    ensures TwinsLinked(hes, es[..j + 1])
  {
    assert es[..j + 1] == es[..j] + [es[j]];
    TwinsLinkedConcat(hes, es[..j], [es[j]]);
  }

  /** The face after surface inference: a face without a carrier gets the
      bounding surface of its outer loop, a face with one keeps it. */
  function WithSurface(fc: Face): (r: Face)
    ensures r.surface.Some?
    ensures fc.surface.Some? ==> r == fc
    ensures fc.surface.None? ==> r.surface == Some(BoundingOf(fc.outerLoop))
    ensures r.outerLoop == fc.outerLoop && r.innerLoops == fc.innerLoops
  {
    if fc.surface.None? then fc.(surface := Some(BoundingOf(fc.outerLoop))) else fc
  }

  /** The faces after the surface inference of the first pass of `build`:
      the shell's faces, in order, each get `WithSurface`. */
  function InferSurfaces(faces: seq<Face>, shell: seq<FaceId>): (r: seq<Face>)
    ensures |r| == |faces|
  {
    if shell == [] then faces
    else
      var r := InferSurfaces(faces, shell[..|shell| - 1]);
      var f := shell[|shell| - 1];
      if f < |r| then r[f := WithSurface(r[f])] else r
  }

  /** Surface inference gives every listed face its surface, keeps every
      surface already given and touches no other face. */
  lemma {:induction false} InferSurfacesAt(faces: seq<Face>, shell: seq<FaceId>, f: FaceId)
    requires f < |faces|
    ensures InferSurfaces(faces, shell)[f] == if f in shell then WithSurface(faces[f]) else faces[f]
  {
    if shell != [] {
      var init := shell[..|shell| - 1];
      InferSurfacesAt(faces, init, f);
      assert shell == init + [shell[|shell| - 1]];
    }
  }

  /** Surface inference leaves every face's loops in place. */
  lemma InferSurfacesLoops(faces: seq<Face>, shell: seq<FaceId>, f: FaceId)
    requires f < |faces|
    ensures InferSurfaces(faces, shell)[f].outerLoop == faces[f].outerLoop
    ensures InferSurfaces(faces, shell)[f].innerLoops == faces[f].innerLoops
    ensures Loops(InferSurfaces(faces, shell)[f]) == Loops(faces[f])
  {
    InferSurfacesAt(faces, shell, f);
  }

  /** Surface inference leaves the shell's half-edges as they were. */
  lemma InferSurfacesShellEdges(faces: seq<Face>, shell: seq<FaceId>, loops: seq<Loop>)
    requires ShellOk(shell, faces, |loops|)
    ensures ShellOk(shell, InferSurfaces(faces, shell), |loops|)
    ensures ShellEdges(shell, InferSurfaces(faces, shell), loops) == ShellEdges(shell, faces, loops)
  {
    var faces' := InferSurfaces(faces, shell);
    forall k | 0 <= k < |shell|
      ensures FaceOk(faces'[shell[k]], |loops|) && FaceEdges(faces'[shell[k]], loops) == FaceEdges(faces[shell[k]], loops)
    {
      InferSurfacesLoops(faces, shell, shell[k]);
    }
    ShellEdgesFrame(shell, faces, loops, faces', loops);
  }

  /** Inferring surfaces twice changes nothing the second time. */
  lemma WithSurfaceIdempotent(fc: Face)
    ensures WithSurface(WithSurface(fc)) == WithSurface(fc)
  {
  }

  /** The capping face `fc` with outer loop `lp` (number `l`), created for
      an edge of the face `src`: it carries `src`'s surface, has no inner
      loop, and its outer loop, with no face back-reference, holds a
      single half-edge, unlinked in `hes0`, now linked to `l`, whose twin
      is an edge of `src`. */
  predicate CapOk(fc: Face, lp: Loop, l: LoopId, hes: seq<HalfEdge>, hes0: seq<HalfEdge>, src: Face, loops: seq<Loop>)
  {
    fc == Face(src.surface, l, []) && lp.face.None? && |lp.halfEdges| == 1 &&
    lp.halfEdges[0] < |hes| && lp.halfEdges[0] < |hes0| &&
    hes0[lp.halfEdges[0]].loop.None? && hes[lp.halfEdges[0]].loop == Some(l) &&
    FaceOk(src, |loops|) && hes[lp.halfEdges[0]].twin in FaceEdges(src, loops)
  }

  /** The faces and loops past `F0` and `L0` are capping faces, the `c`-th
      created for an edge of the shell face at position `origin[c]`. */
  predicate Caps(faces: seq<Face>, loops: seq<Loop>, hes: seq<HalfEdge>, hes0: seq<HalfEdge>,
                 F0: nat, L0: nat, shell: seq<FaceId>, origin: seq<nat>)
  {
    |faces| == F0 + |origin| && |loops| == L0 + |origin| &&
    forall c :: 0 <= c < |origin| ==>
      origin[c] < |shell| && shell[origin[c]] < F0 &&
      CapOk(faces[F0 + c], loops[L0 + c], L0 + c, hes, hes0, faces[shell[origin[c]]], loops)
  }

  /** Every change of a back-reference links a half-edge that was unlinked
      in `hes0` into a loop numbered `L0` or above. */
  predicate LinksOnlyNew(hes0: seq<HalfEdge>, hes: seq<HalfEdge>, L0: nat)
  {
    |hes| == |hes0| &&
    forall x :: 0 <= x < |hes| ==>
      hes[x].loop == hes0[x].loop || (hes0[x].loop.None? && hes[x].loop.Some? && L0 <= hes[x].loop.value)
  }

  /** One more capping face: for the unlinked half-edge `t`, twin of an
      edge of the shell face at position `i`, a face with the surface of
      that face and a new outer loop holding `t` alone, linked. */
  lemma CapsSnoc(faces: seq<Face>, loops: seq<Loop>, hes: seq<HalfEdge>, hes0: seq<HalfEdge>,
                 F0: nat, L0: nat, shell: seq<FaceId>, origin: seq<nat>, i: nat, t: HalfEdgeId)
    requires Caps(faces, loops, hes, hes0, F0, L0, shell, origin)
    requires LinksOnlyNew(hes0, hes, L0) && SameArcs(hes0, hes)
    requires i < |shell| && shell[i] < F0 && F0 <= |faces| && FaceOk(faces[shell[i]], |loops|)
    requires t < |hes| && hes[t].loop.None? && hes[t].twin in FaceEdges(faces[shell[i]], loops)
    ensures var l := |loops|;
            var faces' := faces + [Face(faces[shell[i]].surface, l, [])];
            var loops' := loops + [Loop(None, [t])];
            var hes' := hes[t := hes[t].(loop := Some(l))];
            Caps(faces', loops', hes', hes0, F0, L0, shell, origin + [i]) &&
            LinksOnlyNew(hes0, hes', L0) && SameArcs(hes0, hes')
  {
    var l := |loops|;
    var faces' := faces + [Face(faces[shell[i]].surface, l, [])];
    var loops' := loops + [Loop(None, [t])];
    var hes' := hes[t := hes[t].(loop := Some(l))];
    var origin' := origin + [i];
    assert hes0[t].loop.None? by {
      assert hes[t].loop == hes0[t].loop || hes0[t].loop.None?;
    }
    assert hes'[t].twin == hes[t].twin;
    FaceEdgesGrown(faces[shell[i]], loops, loops');
    forall c | 0 <= c < |origin'|
      ensures origin'[c] < |shell| && shell[origin'[c]] < F0 &&
              CapOk(faces'[F0 + c], loops'[L0 + c], L0 + c, hes', hes0, faces'[shell[origin'[c]]], loops')
    {
      if c < |origin| {
        var src := faces[shell[origin[c]]];
        assert CapOk(faces[F0 + c], loops[L0 + c], L0 + c, hes, hes0, src, loops);
        var u := loops[L0 + c].halfEdges[0];
        assert u != t;
        assert hes'[u] == hes[u];
        FaceEdgesGrown(src, loops, loops');
      }
    }
    forall x | 0 <= x < |hes'|
      ensures hes'[x].(loop := hes0[x].loop) == hes0[x]
    {
      assert hes[x].(loop := hes0[x].loop) == hes0[x];
    }
  }

  /** A capping face's half-edge, unlinked in `hes1`, was unlinked in any
      earlier arena whose links `hes1` keeps. */
  lemma CapsEarlier(faces: seq<Face>, loops: seq<Loop>, hes: seq<HalfEdge>, hes1: seq<HalfEdge>, hes0: seq<HalfEdge>,
                    F0: nat, L0: nat, shell: seq<FaceId>, origin: seq<nat>)
    requires Caps(faces, loops, hes, hes1, F0, L0, shell, origin) && KeepsLinks(hes0, hes1)
    ensures Caps(faces, loops, hes, hes0, F0, L0, shell, origin)
  {
    forall c | 0 <= c < |origin|
      ensures origin[c] < |shell| && shell[origin[c]] < F0 &&
              CapOk(faces[F0 + c], loops[L0 + c], L0 + c, hes, hes0, faces[shell[origin[c]]], loops)
    {
      assert CapOk(faces[F0 + c], loops[L0 + c], L0 + c, hes, hes1, faces[shell[origin[c]]], loops);
    }
  }

  /** The half-edges of the capping loops, unlinked in `hes1`, are none
      of the half-edges `es` that are all linked there. */
  lemma CapsOrphans(faces: seq<Face>, loops: seq<Loop>, hes: seq<HalfEdge>, hes1: seq<HalfEdge>,
                    F0: nat, L0: nat, shell: seq<FaceId>, origin: seq<nat>, es: seq<HalfEdgeId>)
    requires Caps(faces, loops, hes, hes1, F0, L0, shell, origin) && AllLinked(hes1, es)
    ensures forall l, k :: L0 <= l < |loops| && 0 <= k < |loops[l].halfEdges| ==> loops[l].halfEdges[k] !in es
  {
    forall l, k | L0 <= l < |loops| && 0 <= k < |loops[l].halfEdges| ensures loops[l].halfEdges[k] !in es {
      var c := l - L0;
      assert CapOk(faces[F0 + c], loops[L0 + c], L0 + c, hes, hes1, faces[shell[origin[c]]], loops);
      var t := loops[l].halfEdges[k];
      assert hes1[t].loop.None?;
      forall i | 0 <= i < |es| ensures es[i] != t {
        assert hes1[es[i]].loop.Some?;
      }
    }
  }
}
