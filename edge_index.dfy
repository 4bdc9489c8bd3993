/** The directed-edge registry (`EdgeIndex`) behind `edge(a, b)`, modelled by
    its contract: an ordered pair of vertex identities maps to the
    half-edge running between them; the first request for a pair creates a
    mutually twinned pair of half-edges, later requests return the stored
    one. */
module EdgeIndex {
  import opened Wrappers
  import opened Topology

  type Key = (VertexId, VertexId)
  type Index = map<Key, HalfEdgeId>

  /** Every stored half-edge runs between the vertices of its key, and the
      reverse key of a pair of distinct vertices holds its twin. */
  predicate IndexOk(index: Index, hes: seq<HalfEdge>)
  {
    (forall k <- index :: index[k] < |hes| && hes[index[k]].start == k.0 && hes[index[k]].end == k.1) &&
    (forall k <- index :: k.0 != k.1 && index[k] < |hes| ==>
       (k.1, k.0) in index && index[(k.1, k.0)] == hes[index[k]].twin)
  }

  datatype Resolved = Resolved(index: Index, halfEdges: seq<HalfEdge>, he: HalfEdgeId)

  /** `getHalfEdgeOrCreate(a, b, curveCreate, invertedToCurve, tag)`: the
      half-edge `a -> b`, created together with its twin `b -> a` when the
      pair is new. The curve, orientation flag and tag are used only when
      the pair is created. */
  function GetHalfEdgeOrCreate(index: Index, hes: seq<HalfEdge>, a: VertexId, b: VertexId,
                               curve: Option<CurveFactory>, invertedToCurve: bool, tag: Option<nat>): (r: Resolved)
    requires TwinsOk(hes) && IndexOk(index, hes)
    ensures TwinsOk(r.halfEdges) && IndexOk(r.index, r.halfEdges)
    ensures r.he < |r.halfEdges| && r.halfEdges[r.he].start == a && r.halfEdges[r.he].end == b
    ensures (a, b) in r.index && r.index[(a, b)] == r.he
    // the arena only grows, and the registry only gains keys
    ensures |hes| <= |r.halfEdges| && r.halfEdges[..|hes|] == hes
    ensures forall k <- index :: k in r.index && r.index[k] == index[k]
    ensures forall i :: |hes| <= i < |r.halfEdges| ==> r.halfEdges[i].loop.None?
    // a known pair is returned as stored, with nothing created
    ensures (a, b) in index ==> r.index == index && r.halfEdges == hes
    // a new pair is two fresh, unlinked half-edges carrying the given data
    ensures (a, b) !in index ==>
      |r.halfEdges| == |hes| + 2 && r.he == |hes| &&
      r.halfEdges[r.he].twin == |hes| + 1 &&
      r.halfEdges[r.he].loop.None? && r.halfEdges[|hes| + 1].loop.None? &&
      r.halfEdges[r.he].curveCreate == curve && r.halfEdges[r.he].tag == tag &&
      r.halfEdges[r.he].invertedToCurve == invertedToCurve
  {
    if (a, b) in index then
      Resolved(index, hes, index[(a, b)])
    else
      CreatePairOk(index, hes, a, b, curve, invertedToCurve, tag);
      Resolved(index[(b, a) := |hes| + 1][(a, b) := |hes|], hes + NewPair(|hes|, a, b, curve, invertedToCurve, tag), |hes|)
  }

  /** The two half-edges created for a new pair, stored from index `h` on:
      `a -> b` at `h`, its twin `b -> a` at `h + 1`. */
  function NewPair(h: HalfEdgeId, a: VertexId, b: VertexId,
                   curve: Option<CurveFactory>, invertedToCurve: bool, tag: Option<nat>): seq<HalfEdge>
  {
    [HalfEdge(a, b, h + 1, None, curve, invertedToCurve, tag),
     HalfEdge(b, a, h, None, curve, !invertedToCurve, tag)]
  }

  lemma CreatePairOk(index: Index, hes: seq<HalfEdge>, a: VertexId, b: VertexId,
                     curve: Option<CurveFactory>, invertedToCurve: bool, tag: Option<nat>)
    requires TwinsOk(hes) && IndexOk(index, hes) && (a, b) !in index
    ensures var hes' := hes + NewPair(|hes|, a, b, curve, invertedToCurve, tag);
            var index' := index[(b, a) := |hes| + 1][(a, b) := |hes|];
            TwinsOk(hes') && IndexOk(index', hes') && hes'[..|hes|] == hes &&
            (forall k <- index :: k in index' && index'[k] == index[k]) &&
            (forall i :: |hes| <= i < |hes'| ==> hes'[i].loop.None?)
  {
    NewPairTwins(hes, a, b, curve, invertedToCurve, tag);
    NewPairIndexed(index, hes, a, b, curve, invertedToCurve, tag);
  }

  lemma NewPairTwins(hes: seq<HalfEdge>, a: VertexId, b: VertexId,
                     curve: Option<CurveFactory>, invertedToCurve: bool, tag: Option<nat>)
    requires TwinsOk(hes)
    ensures var hes' := hes + NewPair(|hes|, a, b, curve, invertedToCurve, tag);
            TwinsOk(hes') && hes'[..|hes|] == hes &&
            (forall i :: |hes| <= i < |hes'| ==> hes'[i].loop.None?)
  {
    var hes' := hes + NewPair(|hes|, a, b, curve, invertedToCurve, tag);
    assert hes'[..|hes|] == hes;
    forall h | 0 <= h < |hes'|
      ensures hes'[h].twin < |hes'| && TwinOf(hes'[hes'[h].twin], h, hes'[h])
    {
      if h < |hes| {
        assert hes[h].twin < |hes| && TwinOf(hes[hes[h].twin], h, hes[h]);
      }
    }
  }

  lemma NewPairIndexed(index: Index, hes: seq<HalfEdge>, a: VertexId, b: VertexId,
                       curve: Option<CurveFactory>, invertedToCurve: bool, tag: Option<nat>)
    requires IndexOk(index, hes) && (a, b) !in index
    ensures var hes' := hes + NewPair(|hes|, a, b, curve, invertedToCurve, tag);
            var index' := index[(b, a) := |hes| + 1][(a, b) := |hes|];
            IndexOk(index', hes') && (forall k <- index :: k in index' && index'[k] == index[k])
  {
    var hes' := hes + NewPair(|hes|, a, b, curve, invertedToCurve, tag);
    var index' := index[(b, a) := |hes| + 1][(a, b) := |hes|];
    assert forall i :: 0 <= i < |hes| ==> hes'[i] == hes[i];
    // a consistent registry never holds (b, a) without (a, b)
    assert a != b ==> (b, a) !in index;
    forall k <- index' | k.0 != k.1 && index'[k] < |hes'|
      ensures (k.1, k.0) in index' && index'[(k.1, k.0)] == hes'[index'[k]].twin
    {
      if k != (a, b) && k != (b, a) {
        assert (k.1, k.0) in index;
      }
    }
  }

  /** Resolving the same ordered pair twice gives the same half-edge and
      changes nothing the second time, whatever curve data comes with it. */
  lemma ResolveTwiceSame(index: Index, hes: seq<HalfEdge>, a: VertexId, b: VertexId,
                         c1: Option<CurveFactory>, i1: bool, t1: Option<nat>,
                         c2: Option<CurveFactory>, i2: bool, t2: Option<nat>)
    requires TwinsOk(hes) && IndexOk(index, hes)
    ensures var r1 := GetHalfEdgeOrCreate(index, hes, a, b, c1, i1, t1);
            GetHalfEdgeOrCreate(r1.index, r1.halfEdges, a, b, c2, i2, t2) == r1
  {
  }

  /** Resolving `(b, a)` after `(a, b)`, for distinct vertices, gives the
      twin of the first result and creates nothing. */
  lemma ResolveReverseIsTwin(index: Index, hes: seq<HalfEdge>, a: VertexId, b: VertexId,
                             c1: Option<CurveFactory>, i1: bool, t1: Option<nat>,
                             c2: Option<CurveFactory>, i2: bool, t2: Option<nat>)
    requires TwinsOk(hes) && IndexOk(index, hes)
    requires a != b
    ensures var r1 := GetHalfEdgeOrCreate(index, hes, a, b, c1, i1, t1);
            var r2 := GetHalfEdgeOrCreate(r1.index, r1.halfEdges, b, a, c2, i2, t2);
            r2.he == r1.halfEdges[r1.he].twin && r2.index == r1.index && r2.halfEdges == r1.halfEdges &&
            r1.halfEdges[r2.he].twin == r1.he
  {
    var r1 := GetHalfEdgeOrCreate(index, hes, a, b, c1, i1, t1);
    assert (a, b) in r1.index && r1.index[(a, b)] == r1.he;
    assert r1.he < |r1.halfEdges|;
  }

  /** The registry stays consistent when only loop back-references change. */
  lemma IndexOkSameArcs(index: Index, hes: seq<HalfEdge>, hes': seq<HalfEdge>)
    requires IndexOk(index, hes) && SameArcs(hes, hes')
    ensures IndexOk(index, hes')
  {
    forall k <- index ensures hes'[index[k]].start == k.0 && hes'[index[k]].end == k.1 && hes'[index[k]].twin == hes[index[k]].twin {
      assert hes'[index[k]].(loop := hes[index[k]].loop) == hes[index[k]];
    }
  }

  /** `h` is the half-edge the registry holds for `a -> b`, and it runs from `a` to `b`. */
  predicate EdgeAt(index: Index, hes: seq<HalfEdge>, h: HalfEdgeId, a: VertexId, b: VertexId)
  {
    h < |hes| && hes[h].start == a && hes[h].end == b && (a, b) in index && index[(a, b)] == h
  }

  /** The first `n` half-edges of `hs` are the registry's answers for the
      cycle edges `vs[k] -> vs[(k + 1) % |vs|]`, and `hs` has no others. */
  predicate CycleEdges(index: Index, hes: seq<HalfEdge>, hs: seq<HalfEdgeId>, vs: seq<VertexId>, n: nat)
  {
    n <= |vs| && |hs| == n &&
    forall k :: 0 <= k < n ==> EdgeAt(index, hes, hs[k], vs[k], vs[Succ(k, |vs|)])
  }

  /** What the registry has answered stays true once it has grown. */
  lemma EdgeAtGrown(index: Index, hes: seq<HalfEdge>, index': Index, hes': seq<HalfEdge>,
                    hs: seq<HalfEdgeId>, vs: seq<VertexId>, n: nat)
    requires CycleEdges(index, hes, hs, vs, n)
    requires |hes| <= |hes'| && hes'[..|hes|] == hes
    requires forall k <- index :: k in index' && index'[k] == index[k]
    ensures CycleEdges(index', hes', hs, vs, n)
  {
    forall k | 0 <= k < n
      ensures EdgeAt(index', hes', hs[k], vs[k], vs[Succ(k, |vs|)])
    {
      assert EdgeAt(index, hes, hs[k], vs[k], vs[Succ(k, |vs|)]);
      assert hes'[hs[k]] == hes'[..|hes|][hs[k]];
    }
  }

  lemma CycleEdgesSnoc(index: Index, hes: seq<HalfEdge>, hs: seq<HalfEdgeId>, h: HalfEdgeId,
                       vs: seq<VertexId>, n: nat)
    requires CycleEdges(index, hes, hs, vs, n) && n < |vs|
    requires EdgeAt(index, hes, h, vs[n], vs[Succ(n, |vs|)])
    ensures CycleEdges(index, hes, hs + [h], vs, n + 1)
  {
    assert forall k :: 0 <= k < n ==> (hs + [h])[k] == hs[k];
  }

  /** The state part-way through `loop(vertices)` on loop `cl`: it holds
      the registry's half-edges for the first `n` cycle edges of `vs`; every
      other loop, the earlier half-edges and the earlier registry entries
      are as they were in `loops0`, `hes0` and `index0`. */
  predicate CycleFrom(loops: seq<Loop>, hes: seq<HalfEdge>, index: Index, cl: LoopId,
                      vs: seq<VertexId>, n: nat, loops0: seq<Loop>, hes0: seq<HalfEdge>, index0: Index)
  {
    cl < |loops| && |loops| == |loops0| && loops[cl].face == loops0[cl].face &&
    (forall l :: 0 <= l < |loops| && l != cl ==> loops[l] == loops0[l]) &&
    CycleEdges(index, hes, loops[cl].halfEdges, vs, n) &&
    |hes0| <= |hes| && hes[..|hes0|] == hes0 &&
    (forall k <- index0 :: k in index && index[k] == index0[k])
  }

  /** Appending the registry's half-edge for the next cycle edge keeps `CycleFrom`. */
  lemma CycleFromSnoc(loops: seq<Loop>, hes: seq<HalfEdge>, index: Index,
                      loops': seq<Loop>, hes': seq<HalfEdge>, index': Index,
                      cl: LoopId, h: HalfEdgeId, vs: seq<VertexId>, n: nat,
                      loops0: seq<Loop>, hes0: seq<HalfEdge>, index0: Index)
    requires CycleFrom(loops, hes, index, cl, vs, n, loops0, hes0, index0) && n < |vs|
    requires loops' == loops[cl := Loop(loops[cl].face, loops[cl].halfEdges + [h])]
    requires |hes| <= |hes'| && hes'[..|hes|] == hes
    requires forall k <- index :: k in index' && index'[k] == index[k]
    requires EdgeAt(index', hes', h, vs[n], vs[Succ(n, |vs|)])
    ensures CycleFrom(loops', hes', index', cl, vs, n + 1, loops0, hes0, index0)
  {
    EdgeAtGrown(index, hes, index', hes', loops[cl].halfEdges, vs, n);
    CycleEdgesSnoc(index', hes', loops[cl].halfEdges, h, vs, n);
    assert hes'[..|hes0|] == hes'[..|hes|][..|hes0|];
  }

  /** The index after `i` in a cycle of length `n`: `(i + 1) % n`. */
  function Succ(i: nat, n: nat): (j: nat)
    requires i < n
    ensures j == (i + 1) % n
  {
    if i + 1 == n then 0 else i + 1
  }
}
