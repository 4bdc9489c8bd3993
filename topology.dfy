/** The topological entities the builder assembles (vertices, half-edges,
    loops, faces), stored in arenas: an entity's identity is its index in
    the arena that holds it, so sharing and aliasing of the original object
    graph become equal indices. */
module Topology {
  import opened Wrappers

  type VertexId = nat
  type HalfEdgeId = nat
  type LoopId = nat
  type FaceId = nat
  type CurveId = nat

  datatype Point = Point(x: real, y: real, z: real)

  /** The `curveCreate` argument handed to the edge registry, opaque: a
      factory given by the client, or the closure `edgeTrim` builds over a
      carrier curve and two vertices. Only the factory is stored; what
      calling it yields is not modelled. */
  datatype CurveFactory = Given(id: nat) | TrimFactory(carrier: CurveId, from: VertexId, to: VertexId)

  /** A face's carrier surface, opaque: one handed to `face(surface)`, or
      the bounding surface synthesised from the tessellation of a face's
      outer loop during `build`. */
  datatype Surface = Declared(id: nat) | BoundingOf(outerLoop: LoopId)

  /** A directed arc `start -> end` with its twin, the loop it has been
      linked into (null until then) and the data the edge registry stored
      when it created the pair. */
  datatype HalfEdge = HalfEdge(
    start: VertexId,
    end: VertexId,
    twin: HalfEdgeId,
    loop: Option<LoopId>,
    curveCreate: Option<CurveFactory>,
    invertedToCurve: bool,
    tag: Option<nat>)

  /** A loop: its half-edges in order and the back-reference to its face. */
  datatype Loop = Loop(face: Option<FaceId>, halfEdges: seq<HalfEdgeId>)

  /** A face: its carrier (null until given or synthesised), its outer loop
      and its inner (hole) loops. */
  datatype Face = Face(surface: Option<Surface>, outerLoop: LoopId, innerLoops: seq<LoopId>)

  /** `face.loops`: the outer loop, then the inner loops. */
  function Loops(f: Face): seq<LoopId>
  {
    [f.outerLoop] + f.innerLoops
  }

  predicate LoopsIn(ls: seq<LoopId>, loopCount: nat)
  {
    forall k :: 0 <= k < |ls| ==> ls[k] < loopCount
  }

  /** The half-edges of the loops `ls`, loop after loop, each in order. */
  function LoopEdges(ls: seq<LoopId>, loops: seq<Loop>): seq<HalfEdgeId>
    requires LoopsIn(ls, |loops|)
  {
    if ls == [] then [] else LoopEdges(ls[..|ls| - 1], loops) + loops[ls[|ls| - 1]].halfEdges
  }

  /** `face.edges`: every half-edge of every loop of the face. */
  function FaceEdges(f: Face, loops: seq<Loop>): seq<HalfEdgeId>
    requires FaceOk(f, |loops|)
  {
    LoopEdges(Loops(f), loops)
  }

  /** A half-edge is among the loops' edges exactly when one of the loops holds it. */
  lemma {:induction false} LoopEdgesMember(ls: seq<LoopId>, loops: seq<Loop>, h: HalfEdgeId)
    requires LoopsIn(ls, |loops|)
    ensures h in LoopEdges(ls, loops) <==> exists k :: 0 <= k < |ls| && h in loops[ls[k]].halfEdges
  {
    if ls != [] {
      var init := ls[..|ls| - 1];
      LoopEdgesMember(init, loops, h);
      if h in LoopEdges(ls, loops) {
        if h in LoopEdges(init, loops) {
          var k :| 0 <= k < |init| && h in loops[init[k]].halfEdges;
          assert ls[k] == init[k];
        } else {
          assert h in loops[ls[|ls| - 1]].halfEdges;
        }
      } else {
        forall k | 0 <= k < |ls| ensures h !in loops[ls[k]].halfEdges {
          if k < |init| {
            assert ls[k] == init[k];
          }
        }
      }
    }
  }

  /** The edges of the loops depend only on those loops' half-edge sequences. */
  lemma {:induction false} LoopEdgesFrame(ls: seq<LoopId>, loops: seq<Loop>, loops': seq<Loop>)
    requires LoopsIn(ls, |loops|) && LoopsIn(ls, |loops'|)
    requires forall k :: 0 <= k < |ls| ==> loops'[ls[k]].halfEdges == loops[ls[k]].halfEdges
    ensures LoopEdges(ls, loops') == LoopEdges(ls, loops)
  {
    if ls != [] {
      LoopEdgesFrame(ls[..|ls| - 1], loops, loops');
    }
  }

  /** Every edge of the loops `ls` is an allocated half-edge. */
  lemma {:induction false} LoopEdgesInRange(ls: seq<LoopId>, loops: seq<Loop>, faceCount: nat, n: nat)
    requires LoopsIn(ls, |loops|)
    requires forall l :: 0 <= l < |loops| ==> LoopOk(loops[l], faceCount, n)
    ensures forall k :: 0 <= k < |LoopEdges(ls, loops)| ==> LoopEdges(ls, loops)[k] < n
  {
    if ls != [] {
      var init, last := LoopEdges(ls[..|ls| - 1], loops), loops[ls[|ls| - 1]].halfEdges;
      LoopEdgesInRange(ls[..|ls| - 1], loops, faceCount, n);
      assert LoopOk(loops[ls[|ls| - 1]], faceCount, n);
      forall k | |init| <= k < |init + last| ensures (init + last)[k] < n {
        assert (init + last)[k] in last;
      }
    }
  }

  /** Every loop id a face names is allocated. */
  predicate FaceOk(f: Face, loopCount: nat)
    ensures FaceOk(f, loopCount) ==> LoopsIn(Loops(f), loopCount)
  {
    f.outerLoop < loopCount && LoopsIn(f.innerLoops, loopCount)
  }

  predicate LoopOk(lp: Loop, faceCount: nat, halfEdgeCount: nat)
  {
    (lp.face.Some? ==> lp.face.value < faceCount) &&
    forall k :: 0 <= k < |lp.halfEdges| ==> lp.halfEdges[k] < halfEdgeCount
  }

  /** Twins are paired: `he.twin().twin() == he`, a half-edge is never its
      own twin, twins run in opposite directions, share the curve factory and
      tag, and exactly one of the two is inverted with respect to it. */
  predicate TwinsOk(hes: seq<HalfEdge>)
  {
    forall h :: 0 <= h < |hes| ==> hes[h].twin < |hes| && TwinOf(hes[hes[h].twin], h, hes[h])
  }

  /** `t` is the twin of the half-edge `he` stored at index `h`. */
  predicate TwinOf(t: HalfEdge, h: HalfEdgeId, he: HalfEdge)
  {
    he.twin != h && t.twin == h &&
    t.start == he.end && t.end == he.start &&
    t.curveCreate == he.curveCreate && t.tag == he.tag &&
    t.invertedToCurve == !he.invertedToCurve
  }

  /** A half-edge's loop back-reference names a loop that holds it. */
  predicate LoopRefsOk(hes: seq<HalfEdge>, loops: seq<Loop>)
  {
    forall h :: 0 <= h < |hes| && hes[h].loop.Some? ==>
      hes[h].loop.value < |loops| && h in loops[hes[h].loop.value].halfEdges
  }

  predicate WellFormed(faces: seq<Face>, loops: seq<Loop>, hes: seq<HalfEdge>)
  {
    (forall f :: 0 <= f < |faces| ==> FaceOk(faces[f], |loops|)) &&
    (forall l :: 0 <= l < |loops| ==> LoopOk(loops[l], |faces|, |hes|)) &&
    TwinsOk(hes) &&
    LoopRefsOk(hes, loops)
  }

  /** Two half-edge arenas that differ at most in loop back-references. */
  predicate SameArcs(hes: seq<HalfEdge>, hes': seq<HalfEdge>)
  {
    |hes'| == |hes| &&
    forall h :: 0 <= h < |hes| ==> hes'[h].(loop := hes[h].loop) == hes[h]
  }

  /** Twin pairing survives any change of loop back-references. */
  lemma TwinsOkSameArcs(hes: seq<HalfEdge>, hes': seq<HalfEdge>)
    requires TwinsOk(hes) && SameArcs(hes, hes')
    ensures TwinsOk(hes')
  {
    forall h | 0 <= h < |hes'|
      ensures hes'[h].twin < |hes'| && TwinOf(hes'[hes'[h].twin], h, hes'[h])
    {
      assert hes'[h].(loop := hes[h].loop) == hes[h];
      var t := hes[h].twin;
      assert hes'[t].(loop := hes[t].loop) == hes[t];
    }
  }

  /** `face(surface)` allocates a face and its empty outer loop. */
  lemma WellFormedNewFace(faces: seq<Face>, loops: seq<Loop>, hes: seq<HalfEdge>, s: Option<Surface>)
    requires WellFormed(faces, loops, hes)
    ensures WellFormed(faces + [Face(s, |loops|, [])], loops + [Loop(None, [])], hes)
  {
    var faces', loops' := faces + [Face(s, |loops|, [])], loops + [Loop(None, [])];
    forall f | 0 <= f < |faces'| ensures FaceOk(faces'[f], |loops'|) {
      if f < |faces| {
        assert FaceOk(faces[f], |loops|);
      }
    }
    forall h | 0 <= h < |hes| && hes[h].loop.Some?
      ensures hes[h].loop.value < |loops'| && h in loops'[hes[h].loop.value].halfEdges
    {
      assert loops'[hes[h].loop.value] == loops[hes[h].loop.value];
    }
  }

  /** A new, empty inner loop is appended to face `f`. */
  lemma WellFormedNewInnerLoop(faces: seq<Face>, loops: seq<Loop>, hes: seq<HalfEdge>, f: FaceId)
    requires WellFormed(faces, loops, hes) && f < |faces|
    ensures WellFormed(faces[f := faces[f].(innerLoops := faces[f].innerLoops + [|loops|])],
                       loops + [Loop(None, [])], hes)
  {
    var faces' := faces[f := faces[f].(innerLoops := faces[f].innerLoops + [|loops|])];
    var loops' := loops + [Loop(None, [])];
    forall g | 0 <= g < |faces'| ensures FaceOk(faces'[g], |loops'|) {
      assert FaceOk(faces[g], |loops|);
    }
    forall h | 0 <= h < |hes| && hes[h].loop.Some?
      ensures hes[h].loop.value < |loops'| && h in loops'[hes[h].loop.value].halfEdges
    {
      assert loops'[hes[h].loop.value] == loops[hes[h].loop.value];
    }
  }

  /** Loop `l` gets the back-reference to face `f`. */
  lemma WellFormedSetLoopFace(faces: seq<Face>, loops: seq<Loop>, hes: seq<HalfEdge>, l: LoopId, f: FaceId)
    requires WellFormed(faces, loops, hes) && l < |loops| && f < |faces|
    ensures WellFormed(faces, loops[l := loops[l].(face := Some(f))], hes)
  {
    var loops' := loops[l := loops[l].(face := Some(f))];
    forall g | 0 <= g < |faces| ensures FaceOk(faces[g], |loops'|) {
      assert FaceOk(faces[g], |loops|);
    }
    forall h | 0 <= h < |hes| && hes[h].loop.Some?
      ensures h in loops'[hes[h].loop.value].halfEdges
    {
      assert loops'[hes[h].loop.value].halfEdges == loops[hes[h].loop.value].halfEdges;
    }
  }

  /** Half-edge `h` of a grown arena, whose new entries are unlinked, is
      appended to loop `l`. */
  lemma WellFormedAppendEdge(faces: seq<Face>, loops: seq<Loop>, hes: seq<HalfEdge>, hes': seq<HalfEdge>,
                             l: LoopId, h: HalfEdgeId)
    requires WellFormed(faces, loops, hes) && l < |loops| && h < |hes'|
    requires |hes| <= |hes'| && hes'[..|hes|] == hes && TwinsOk(hes')
    requires forall i :: |hes| <= i < |hes'| ==> hes'[i].loop.None?
    ensures WellFormed(faces, loops[l := Loop(loops[l].face, loops[l].halfEdges + [h])], hes')
  {
    var loops' := loops[l := Loop(loops[l].face, loops[l].halfEdges + [h])];
    forall g | 0 <= g < |faces| ensures FaceOk(faces[g], |loops'|) {
      assert FaceOk(faces[g], |loops|);
    }
    forall m | 0 <= m < |loops'| ensures LoopOk(loops'[m], |faces|, |hes'|) {
      assert LoopOk(loops[m], |faces|, |hes|);
    }
    forall i | 0 <= i < |hes'| && hes'[i].loop.Some?
      ensures hes'[i].loop.value < |loops'| && i in loops'[hes'[i].loop.value].halfEdges
    {
      assert i < |hes| && hes'[i] == hes[i];
      assert i in loops[hes[i].loop.value].halfEdges;
    }
  }

  /** Loop `l` is linked: its half-edges now refer back to it, every other
      back-reference is kept. */
  lemma WellFormedRelink(faces: seq<Face>, loops: seq<Loop>, hes: seq<HalfEdge>, hes': seq<HalfEdge>, l: LoopId)
    requires WellFormed(faces, loops, hes) && l < |loops| && SameArcs(hes, hes')
    requires forall x :: 0 <= x < |hes'| ==>
      hes'[x].loop == if x in loops[l].halfEdges then Some(l) else hes[x].loop
    ensures WellFormed(faces, loops, hes')
  {
    TwinsOkSameArcs(hes, hes');
  }

  /** Face `f` is replaced by a face with allocated loops (a new surface, say). */
  lemma WellFormedReplaceFace(faces: seq<Face>, loops: seq<Loop>, hes: seq<HalfEdge>, f: FaceId, fc: Face)
    requires WellFormed(faces, loops, hes) && f < |faces| && FaceOk(fc, |loops|)
    ensures WellFormed(faces[f := fc], loops, hes)
  {
  }

  /** A capping face is allocated, its outer loop holding the single half-edge `t`. */
  lemma WellFormedNewCap(faces: seq<Face>, loops: seq<Loop>, hes: seq<HalfEdge>, s: Option<Surface>, t: HalfEdgeId)
    requires WellFormed(faces, loops, hes) && t < |hes|
    ensures WellFormed(faces + [Face(s, |loops|, [])], loops + [Loop(None, [t])], hes)
  {
    var faces', loops' := faces + [Face(s, |loops|, [])], loops + [Loop(None, [t])];
    forall f | 0 <= f < |faces'| ensures FaceOk(faces'[f], |loops'|) {
      if f < |faces| {
        assert FaceOk(faces[f], |loops|);
      }
    }
    forall h | 0 <= h < |hes| && hes[h].loop.Some?
      ensures hes[h].loop.value < |loops'| && h in loops'[hes[h].loop.value].halfEdges
    {
      assert loops'[hes[h].loop.value] == loops[hes[h].loop.value];
    }
  }
}
