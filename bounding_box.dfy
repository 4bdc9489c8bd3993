/** The bounding-box part of `createBoundingSurfaceFrom2DPoints`: the
    axis-aligned box of the 2D points, widened to a minimum width and
    height around the origin of the 2D frame, then inflated by an offset.
    Coordinates are reals; JavaScript's doubles are not modelled. */
module BoundingBox {
  import opened Wrappers

  datatype Point2D = Point2D(x: real, y: real)

  /** An axis-aligned box, as the four bounds of a `BBox`. */
  datatype Box = Box(minX: real, maxX: real, minY: real, maxY: real)

  /** `Number.MAX_VALUE`, the largest finite double, exactly. */
  const MaxValue: real := 179769313486231570814527423731704356798070567525844996598917476803157260780028538760589558632766878171540458953514382464234321326889464182768467546703537516986049910576551282076245490090389328944075868508455133942304583236903222948165808559332123348274797826204144723168738177180919299881250404026184124858368.0

  /** A fresh `BBox`: every bound at the far end, so the first point sets all four. */
  const Empty: Box := Box(MaxValue, -MaxValue, MaxValue, -MaxValue)

  function Min(a: real, b: real): real { if a <= b then a else b }
  function Max(a: real, b: real): real { if a <= b then b else a }

  function WidthOf(b: Box): real { b.maxX - b.minX }
  function HeightOf(b: Box): real { b.maxY - b.minY }

  /** `(x, y)` lies in the box. */
  predicate Covers(b: Box, x: real, y: real)
  {
    b.minX <= x <= b.maxX && b.minY <= y <= b.maxY
  }

  /** Box `b` lies in box `c`. */
  predicate Within(b: Box, c: Box)
  {
    c.minX <= b.minX && b.maxX <= c.maxX && c.minY <= b.minY && b.maxY <= c.maxY
  }

  /** `checkBounds(x, y)`: the smallest box holding `b` and `(x, y)`. */
  function Include(b: Box, x: real, y: real): (r: Box)
    ensures Covers(r, x, y) && Within(b, r)
  {
    Box(Min(b.minX, x), Max(b.maxX, x), Min(b.minY, y), Max(b.maxY, y))
  }

  /** Each side of `Include(b, x, y)` is the side of `b` or the new coordinate. */
  lemma IncludeTight(b: Box, x: real, y: real)
    ensures var r := Include(b, x, y);
            (r.minX == b.minX || r.minX == x) && (r.maxX == b.maxX || r.maxX == x) &&
            (r.minY == b.minY || r.minY == y) && (r.maxY == b.maxY || r.maxY == y)
  {
  }

  /** `points2d.forEach(p => bBox.checkPoint(p))`, starting from `b`. */
  function Grow(b: Box, ps: seq<Point2D>): (r: Box)
    ensures Within(b, r)
  {
    if ps == [] then b else Include(Grow(b, ps[..|ps| - 1]), ps[|ps| - 1].x, ps[|ps| - 1].y)
  }

  /** Lines 109-112: a width below `minWidth` (given and non-zero, as
      JavaScript's truthiness demands) pulls in the points `(±minWidth/2, 0)`. */
  function WidenX(b: Box, minWidth: Option<real>): (r: Box)
    ensures Within(b, r)
  {
    if minWidth.Some? && minWidth.value != 0.0 && WidthOf(b) < minWidth.value then
      Include(Include(b, minWidth.value * 0.5, 0.0), -(minWidth.value * 0.5), 0.0)
    else b
  }

  /** Lines 113-116: the same along Y with `(0, ±minHeight/2)`. */
  function WidenY(b: Box, minHeight: Option<real>): (r: Box)
    ensures Within(b, r)
  {
    if minHeight.Some? && minHeight.value != 0.0 && HeightOf(b) < minHeight.value then
      Include(Include(b, 0.0, minHeight.value * 0.5), 0.0, -(minHeight.value * 0.5))
    else b
  }

  /** Lines 118-123: a non-zero offset moves every side out by half of it. */
  function Inflate(b: Box, offset: real): (r: Box)
    ensures offset >= 0.0 ==> Within(b, r)
    ensures offset <= 0.0 ==> Within(r, b)
  {
    if offset != 0.0 then
      Box(b.minX - offset * 0.5, b.maxX + offset * 0.5, b.minY - offset * 0.5, b.maxY + offset * 0.5)
    else b
  }

  /** The box `createBoundingSurfaceFrom2DPoints` hands to
      `createBoundingSurfaceFromBBox`. */
  function Padded(ps: seq<Point2D>, minWidth: Option<real>, minHeight: Option<real>, offset: real): (r: Box)
    ensures offset >= 0.0 ==> Within(Grow(Empty, ps), r)
  {
    Inflate(WidenY(WidenX(Grow(Empty, ps), minWidth), minHeight), offset)
  }

  /** The mutable `BBox` of the computation. */
  class BBox {
    var minX: real
    var maxX: real
    var minY: real
    var maxY: real

    function Value(): Box
      reads this
    {
      Box(minX, maxX, minY, maxY)
    }

    /** `width()` */
    function Width(): (w: real)
      reads this
      ensures w == WidthOf(Value())
    {
      maxX - minX
    }

    /** `height()` */
    function Height(): (h: real)
      reads this
      ensures h == HeightOf(Value())
    {
      maxY - minY
    }

    constructor ()
      ensures Value() == Empty
    {
      minX, maxX, minY, maxY := MaxValue, -MaxValue, MaxValue, -MaxValue;
    }

    method CheckBounds(x: real, y: real)
      modifies this
      ensures Value() == Include(old(Value()), x, y)
    {
      minX, maxX := Min(minX, x), Max(maxX, x);
      minY, maxY := Min(minY, y), Max(maxY, y);
    }

    method CheckPoint(p: Point2D)
      modifies this
      ensures Value() == Include(old(Value()), p.x, p.y)
    {
      CheckBounds(p.x, p.y);
    }

    /** `points2d.forEach(p => bBox.checkPoint(p))` */
    method CheckPoints(ps: seq<Point2D>)
      modifies this
      ensures Value() == Grow(old(Value()), ps)
    {
      for i := 0 to |ps|
        invariant Value() == Grow(old(Value()), ps[..i])
      {
        assert ps[..i + 1][..i] == ps[..i];
        CheckPoint(ps[i]);
      }
      assert ps[..|ps|] == ps;
    }

    /** Lines 109-112, on this box. */
    method PadWidth(minWidth: Option<real>)
      modifies this
      ensures Value() == WidenX(old(Value()), minWidth)
    {
      if minWidth.Some? && minWidth.value != 0.0 && Width() < minWidth.value {
        CheckBounds(minWidth.value * 0.5, 0.0);
        CheckBounds(-(minWidth.value * 0.5), 0.0);
      }
    }

    /** Lines 113-116, on this box. */
    method PadHeight(minHeight: Option<real>)
      modifies this
      ensures Value() == WidenY(old(Value()), minHeight)
    {
      if minHeight.Some? && minHeight.value != 0.0 && Height() < minHeight.value {
        CheckBounds(0.0, minHeight.value * 0.5);
        CheckBounds(0.0, -(minHeight.value * 0.5));
      }
    }

    /** Lines 118-123: a non-zero offset moves every side out by half of it. */
    method Expand(offset: real)
      modifies this
      ensures Value() == Inflate(old(Value()), offset)
    {
      if offset != 0.0 {
        maxX := maxX + offset * 0.5;
        minX := minX - offset * 0.5;
        maxY := maxY + offset * 0.5;
        minY := minY - offset * 0.5;
      }
    }
  }

  /** Lines 105-125, up to the box handed to `createBoundingSurfaceFromBBox`. */
  method BoundingBoxFrom2DPoints(points2d: seq<Point2D>, minWidth: Option<real>, minHeight: Option<real>,
                                 offset: real) returns (box: Box)
    ensures box == Padded(points2d, minWidth, minHeight, offset)
  {
    var bBox := new BBox();
    bBox.CheckPoints(points2d);
    bBox.PadWidth(minWidth);
    bBox.PadHeight(minHeight);
    bBox.Expand(offset);
    box := bBox.Value();
  }

  /** The grown box holds every point. */
  lemma {:induction false} GrowCovers(b: Box, ps: seq<Point2D>)
    ensures Within(b, Grow(b, ps))
    ensures forall k :: 0 <= k < |ps| ==> Covers(Grow(b, ps), ps[k].x, ps[k].y)
  {
    if ps != [] {
      var init := ps[..|ps| - 1];
      GrowCovers(b, init);
      forall k | 0 <= k < |ps| ensures Covers(Grow(b, ps), ps[k].x, ps[k].y) {
        if k < |init| {
          assert ps[k] == init[k];
        }
      }
    }
  }

  /** The box of finite points (all coordinates within `Number.MAX_VALUE`)
      is tight: each of its sides is a coordinate of one of the points. */
  lemma {:induction false} GrowTight(ps: seq<Point2D>)
    requires ps != []
    requires forall k :: 0 <= k < |ps| ==>
      -MaxValue <= ps[k].x <= MaxValue && -MaxValue <= ps[k].y <= MaxValue
    ensures exists k :: 0 <= k < |ps| && Grow(Empty, ps).minX == ps[k].x
    ensures exists k :: 0 <= k < |ps| && Grow(Empty, ps).maxX == ps[k].x
    ensures exists k :: 0 <= k < |ps| && Grow(Empty, ps).minY == ps[k].y
    ensures exists k :: 0 <= k < |ps| && Grow(Empty, ps).maxY == ps[k].y
  {
    var init, last := ps[..|ps| - 1], ps[|ps| - 1];
    if init == [] {
      assert Grow(Empty, ps) == Include(Empty, last.x, last.y);
    } else {
      GrowTight(init);
      var g := Grow(Empty, init);
      var k1 :| 0 <= k1 < |init| && g.minX == init[k1].x;
      var k2 :| 0 <= k2 < |init| && g.maxX == init[k2].x;
      var k3 :| 0 <= k3 < |init| && g.minY == init[k3].y;
      var k4 :| 0 <= k4 < |init| && g.maxY == init[k4].y;
      assert ps[k1] == init[k1] && ps[k2] == init[k2] && ps[k3] == init[k3] && ps[k4] == init[k4];
      IncludeTight(g, last.x, last.y);
    }
  }

  /** Widening along X: when it applies, the X range covers
      `[-minWidth/2, minWidth/2]` (so the width reaches `minWidth`) and the
      Y range covers 0; otherwise the box is unchanged. Either way the box
      only grows. */
  lemma WidenXCovers(b: Box, minWidth: Option<real>)
    ensures Within(b, WidenX(b, minWidth))
    ensures minWidth.Some? && minWidth.value != 0.0 && WidthOf(b) < minWidth.value ==>
      Covers(WidenX(b, minWidth), minWidth.value * 0.5, 0.0) &&
      Covers(WidenX(b, minWidth), -(minWidth.value * 0.5), 0.0) &&
      WidthOf(WidenX(b, minWidth)) >= minWidth.value
    ensures !(minWidth.Some? && minWidth.value != 0.0 && WidthOf(b) < minWidth.value) ==> WidenX(b, minWidth) == b
  {
  }

  /** Widening along Y, the same with the roles of X and Y exchanged. */
  lemma WidenYCovers(b: Box, minHeight: Option<real>)
    ensures Within(b, WidenY(b, minHeight))
    ensures minHeight.Some? && minHeight.value != 0.0 && HeightOf(b) < minHeight.value ==>
      Covers(WidenY(b, minHeight), 0.0, minHeight.value * 0.5) &&
      Covers(WidenY(b, minHeight), 0.0, -(minHeight.value * 0.5)) &&
      HeightOf(WidenY(b, minHeight)) >= minHeight.value
    ensures !(minHeight.Some? && minHeight.value != 0.0 && HeightOf(b) < minHeight.value) ==> WidenY(b, minHeight) == b
  {
  }

  /** Inflating by `offset` adds `offset` to the width and the height and
      keeps the centre; inflating back by `-offset` restores the box. */
  lemma InflateExact(b: Box, offset: real)
    ensures WidthOf(Inflate(b, offset)) == WidthOf(b) + offset
    ensures HeightOf(Inflate(b, offset)) == HeightOf(b) + offset
    ensures Inflate(b, offset).minX + Inflate(b, offset).maxX == b.minX + b.maxX
    ensures Inflate(b, offset).minY + Inflate(b, offset).maxY == b.minY + b.maxY
    ensures Inflate(Inflate(b, offset), -offset) == b
  {
  }

  /** With a non-negative offset the padded box holds every point. */
  lemma PaddedCovers(ps: seq<Point2D>, minWidth: Option<real>, minHeight: Option<real>, offset: real)
    requires offset >= 0.0
    ensures forall k :: 0 <= k < |ps| ==> Covers(Padded(ps, minWidth, minHeight, offset), ps[k].x, ps[k].y)
  {
    var g := Grow(Empty, ps);
    GrowCovers(Empty, ps);
    WidenXCovers(g, minWidth);
    WidenYCovers(WidenX(g, minWidth), minHeight);
  }

  /** The width of the padded box, for every combination of minimums and
      offset: never less than the points' own width plus the offset; at
      least a given non-zero `minWidth` plus the offset; and exactly the
      points' width plus the offset when neither minimum applies. A
      minimum of 0 is JavaScript's "no minimum": an empty box then keeps
      its negative width. */
  lemma PaddedWidth(ps: seq<Point2D>, minWidth: Option<real>, minHeight: Option<real>, offset: real)
    ensures WidthOf(Padded(ps, minWidth, minHeight, offset)) >= WidthOf(Grow(Empty, ps)) + offset
    ensures minWidth.Some? && minWidth.value != 0.0 ==>
      WidthOf(Padded(ps, minWidth, minHeight, offset)) >= minWidth.value + offset
    ensures (minWidth.None? || minWidth.value == 0.0) && (minHeight.None? || minHeight.value == 0.0) ==>
      WidthOf(Padded(ps, minWidth, minHeight, offset)) == WidthOf(Grow(Empty, ps)) + offset
  {
    var g := Grow(Empty, ps);
    var wx := WidenX(g, minWidth);
    WidenXCovers(g, minWidth);
    WidenYCovers(wx, minHeight);
    InflateExact(WidenY(wx, minHeight), offset);
  }

  /** The same along Y: the height of the padded box is at least the
      points' height plus the offset, at least a given non-zero
      `minHeight` plus the offset, and exactly the points' height plus the
      offset when neither minimum applies. */
  lemma PaddedHeight(ps: seq<Point2D>, minWidth: Option<real>, minHeight: Option<real>, offset: real)
    ensures HeightOf(Padded(ps, minWidth, minHeight, offset)) >= HeightOf(Grow(Empty, ps)) + offset
    ensures minHeight.Some? && minHeight.value != 0.0 ==>
      HeightOf(Padded(ps, minWidth, minHeight, offset)) >= minHeight.value + offset
    ensures (minWidth.None? || minWidth.value == 0.0) && (minHeight.None? || minHeight.value == 0.0) ==>
      HeightOf(Padded(ps, minWidth, minHeight, offset)) == HeightOf(Grow(Empty, ps)) + offset
  {
    var g := Grow(Empty, ps);
    var wx := WidenX(g, minWidth);
    WidenXCovers(g, minWidth);
    WidenYCovers(wx, minHeight);
    InflateExact(WidenY(wx, minHeight), offset);
  }

  /** The padding is centred on the origin of the 2D frame, not on the
      box: points spanning x in [10, 14] with `minWidth` 10 give the X
      range [-5, 14], while points spanning [-2, 2] give exactly [-5, 5].
      An offset of 2 then moves every side out by 1. */
  lemma PaddingAroundOrigin()
    ensures Padded([Point2D(10.0, 0.0), Point2D(14.0, 1.0)], Some(10.0), None, 0.0) == Box(-5.0, 14.0, 0.0, 1.0)
    ensures Padded([Point2D(-2.0, 0.0), Point2D(2.0, 1.0)], Some(10.0), None, 0.0) == Box(-5.0, 5.0, 0.0, 1.0)
    ensures Padded([Point2D(-2.0, 0.0), Point2D(2.0, 1.0)], Some(10.0), None, 2.0) == Box(-6.0, 6.0, -1.0, 2.0)
  {
    var p, q := Point2D(10.0, 0.0), Point2D(14.0, 1.0);
    assert [p, q][..1] == [p] && [p][..0] == [];
    assert Grow(Empty, [p]) == Box(10.0, 10.0, 0.0, 0.0);
    assert Grow(Empty, [p, q]) == Box(10.0, 14.0, 0.0, 1.0);
    var r, s := Point2D(-2.0, 0.0), Point2D(2.0, 1.0);
    assert [r, s][..1] == [r] && [r][..0] == [];
    assert Grow(Empty, [r]) == Box(-2.0, -2.0, 0.0, 0.0);
    assert Grow(Empty, [r, s]) == Box(-2.0, 2.0, 0.0, 1.0);
  }

  /** No points and no padding leave the fresh box, inverted on both axes. */
  lemma NoPoints()
    ensures Padded([], None, None, 0.0) == Empty
    ensures WidthOf(Empty) < 0.0 && HeightOf(Empty) < 0.0
  {
  }
}
