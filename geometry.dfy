/**
 * Geometry kernel: points, axis-aligned bounding boxes and the four layout
 * primitives (rectangle, polygon, path, via).  Coordinates are exact reals, so
 * the bounding-box algebra below holds without rounding.
 */
module Geometry {
  import opened Common

  type LayerId = u32

  function Min(a: real, b: real): real { if a <= b then a else b }
  function Max(a: real, b: real): real { if a <= b then b else a }
  function Abs(a: real): real { if a < 0.0 then -a else a }

  datatype Point = Point(x: real, y: real) {
    /** The point moved by (dx, dy). */
    function Translate(dx: real, dy: real): (r: Point)
      ensures r.x - x == dx && r.y - y == dy
    {
      Point(x + dx, y + dy)
    }
  }

  /** Translating by the negated offset undoes a translation. */
  lemma TranslateUndo(p: Point, dx: real, dy: real)
    ensures p.Translate(dx, dy).Translate(-dx, -dy) == p
  {
  }

  datatype BBox = BBox(min: Point, max: Point) {
    /** The invariant of boxes built by `PointsBBox`, `Union` of such boxes and `Rect.BBox`. */
    predicate Normal() { min.x <= max.x && min.y <= max.y }

    function Width(): real { max.x - min.x }
    function Height(): real { max.y - min.y }
    function Center(): Point { Point((min.x + max.x) / 2.0, (min.y + max.y) / 2.0) }

    /** Boundary-inclusive point containment. */
    predicate ContainsPoint(p: Point) {
      p.x >= min.x && p.x <= max.x && p.y >= min.y && p.y <= max.y
    }

    /** Boundary-inclusive overlap test on both axes. */
    predicate Intersects(other: BBox) {
      min.x <= other.max.x && max.x >= other.min.x && min.y <= other.max.y && max.y >= other.min.y
    }

    /** The smallest box that encloses both boxes. */
    function Union(other: BBox): (r: BBox)
      ensures r.Encloses(this) && r.Encloses(other)
      ensures Normal() || other.Normal() ==> r.Normal()
    {
      BBox(Point(Min(min.x, other.min.x), Min(min.y, other.min.y)),
           Point(Max(max.x, other.max.x), Max(max.y, other.max.y)))
    }

    /** `other` lies inside this box (specification helper). */
    predicate Encloses(other: BBox) {
      min.x <= other.min.x && other.max.x <= max.x && min.y <= other.min.y && other.max.y <= max.y
    }
  }

  lemma NormalBoxHasNonNegativeExtent(b: BBox)
    requires b.Normal()
    ensures b.Width() >= 0.0 && b.Height() >= 0.0 && b.ContainsPoint(b.Center())
  {
  }

  /** A box that encloses another contains every point of it. */
  lemma EnclosesContains(outer: BBox, inner: BBox, p: Point)
    requires outer.Encloses(inner) && inner.ContainsPoint(p)
    ensures outer.ContainsPoint(p)
  {
  }

  /** `Union` is the least enclosing box: any box enclosing both arguments encloses it. */
  lemma UnionIsLeast(a: BBox, b: BBox, c: BBox)
    requires c.Encloses(a) && c.Encloses(b)
    ensures c.Encloses(a.Union(b))
  {
  }

  lemma UnionCommutes(a: BBox, b: BBox)
    ensures a.Union(b) == b.Union(a)
  {
  }

  lemma IntersectsSymmetric(a: BBox, b: BBox)
    ensures a.Intersects(b) <==> b.Intersects(a)
  {
  }

  /** Two boxes intersect exactly when some point lies in both. */
  lemma IntersectsIffCommonPoint(a: BBox, b: BBox)
    requires a.Normal() && b.Normal()
    ensures a.Intersects(b) <==> exists p :: a.ContainsPoint(p) && b.ContainsPoint(p)
  {
    if a.Intersects(b) {
      var p := Point(Max(a.min.x, b.min.x), Max(a.min.y, b.min.y));
      assert a.ContainsPoint(p) && b.ContainsPoint(p);
    }
  }

  /** The worked examples: [0,10]^2 meets [5,15]^2 but not [20,30]^2; a shared corner counts. */
  lemma IntersectsExamples()
    ensures BBox(Point(0.0, 0.0), Point(10.0, 10.0)).Intersects(BBox(Point(5.0, 5.0), Point(15.0, 15.0)))
    ensures !BBox(Point(0.0, 0.0), Point(10.0, 10.0)).Intersects(BBox(Point(20.0, 20.0), Point(30.0, 30.0)))
    ensures BBox(Point(0.0, 0.0), Point(10.0, 10.0)).Intersects(BBox(Point(10.0, 10.0), Point(30.0, 30.0)))
    ensures BBox(Point(0.0, 0.0), Point(10.0, 10.0)).ContainsPoint(Point(10.0, 0.0))
  {
  }

  lemma UnionExample()
    ensures BBox(Point(0.0, 0.0), Point(100.0, 50.0)).Union(BBox(Point(50.0, 25.0), Point(200.0, 75.0)))
         == BBox(Point(0.0, 0.0), Point(200.0, 75.0))
  {
  }

  // ── Bounding box of a point set ──────────────────────────────────────

  /** The box `b` grown just enough to contain `p` (one step of the min/max scan). */
  function Include(b: BBox, p: Point): BBox {
    BBox(Point(Min(b.min.x, p.x), Min(b.min.y, p.y)), Point(Max(b.max.x, p.x), Max(b.max.y, p.y)))
  }

  /** Reference definition of `BBox::from_points`: the min/max scan over `pts`, left to right. */
  function PointsBBox(pts: seq<Point>): (r: Option<BBox>)
    ensures r.None? <==> |pts| == 0
    ensures r.Some? ==> r.value.Normal()
    decreases |pts|
  {
    if |pts| == 0 then None
    else if |pts| == 1 then Some(BBox(pts[0], pts[0]))
    else Some(Include(PointsBBox(pts[..|pts| - 1]).value, pts[|pts| - 1]))
  }

  /** Every input point lies in the point-set box. */
  lemma {:induction false} PointsBBoxContains(pts: seq<Point>, i: nat)
    requires i < |pts|
    ensures PointsBBox(pts).value.ContainsPoint(pts[i])
    decreases |pts|
  {
    if |pts| > 1 && i < |pts| - 1 {
      PointsBBoxContains(pts[..|pts| - 1], i);
    }
  }

  /** Each of the four bounds of the point-set box is attained by some input point. */
  lemma {:induction false} PointsBBoxAttained(pts: seq<Point>)
    requires |pts| > 0
    ensures var b := PointsBBox(pts).value;
      && (exists i :: 0 <= i < |pts| && pts[i].x == b.min.x)
      && (exists i :: 0 <= i < |pts| && pts[i].y == b.min.y)
      && (exists i :: 0 <= i < |pts| && pts[i].x == b.max.x)
      && (exists i :: 0 <= i < |pts| && pts[i].y == b.max.y)
    decreases |pts|
  {
    var n := |pts|;
    if n > 1 {
      var init := pts[..n - 1];
      PointsBBoxAttained(init);
      var b := PointsBBox(init).value;
      var bx0 :| 0 <= bx0 < |init| && init[bx0].x == b.min.x;
      var by0 :| 0 <= by0 < |init| && init[by0].y == b.min.y;
      var bx1 :| 0 <= bx1 < |init| && init[bx1].x == b.max.x;
      var by1 :| 0 <= by1 < |init| && init[by1].y == b.max.y;
      var p := pts[n - 1];
      var b' := PointsBBox(pts).value;
      assert b' == Include(b, p);
      var wx0 := if b.min.x <= p.x then bx0 else n - 1;
      var wy0 := if b.min.y <= p.y then by0 else n - 1;
      var wx1 := if b.max.x <= p.x then n - 1 else bx1;
      var wy1 := if b.max.y <= p.y then n - 1 else by1;
      assert pts[wx0].x == b'.min.x && pts[wy0].y == b'.min.y;
      assert pts[wx1].x == b'.max.x && pts[wy1].y == b'.max.y;
    } else {
      assert PointsBBox(pts).value == BBox(pts[0], pts[0]);
    }
  }

  /** `BBox::from_points`: scans the points updating the four running bounds. */
  method FromPoints(points: seq<Point>) returns (r: Option<BBox>)
    ensures r == PointsBBox(points)
    ensures r.None? <==> |points| == 0
    ensures r.Some? ==> r.value.Normal()
    ensures r.Some? ==> forall i :: 0 <= i < |points| ==> r.value.ContainsPoint(points[i])
  {
    if |points| == 0 {
      return None;
    }
    var minX, minY, maxX, maxY := points[0].x, points[0].y, points[0].x, points[0].y;
    for i := 1 to |points|
      invariant PointsBBox(points[..i]) == Some(BBox(Point(minX, minY), Point(maxX, maxY)))
    {
      assert points[..i + 1][..i] == points[..i];
      minX := Min(minX, points[i].x);
      minY := Min(minY, points[i].y);
      maxX := Max(maxX, points[i].x);
      maxY := Max(maxY, points[i].y);
    }
    assert points[..|points|] == points;
    r := Some(BBox(Point(minX, minY), Point(maxX, maxY)));
    forall i | 0 <= i < |points| ensures r.value.ContainsPoint(points[i]) {
      PointsBBoxContains(points, i);
    }
  }

  // ── Primitives ───────────────────────────────────────────────────────

  datatype Rect = Rect(layerId: LayerId, lowerLeft: Point, upperRight: Point) {
    /** `Rect::new`: the corners are normalised so that lower-left <= upper-right on both axes. */
    static function New(layerId: LayerId, x1: real, y1: real, x2: real, y2: real): (r: Rect)
      ensures r.layerId == layerId && r.Normal()
      ensures {r.lowerLeft.x, r.upperRight.x} == {x1, x2} && {r.lowerLeft.y, r.upperRight.y} == {y1, y2}
    {
      Rect(layerId, Point(Min(x1, x2), Min(y1, y2)), Point(Max(x1, x2), Max(y1, y2)))
    }

    predicate Normal() { lowerLeft.x <= upperRight.x && lowerLeft.y <= upperRight.y }

    function BoundingBox(): BBox { BBox(lowerLeft, upperRight) }
    function Width(): real { upperRight.x - lowerLeft.x }
    function Height(): real { upperRight.y - lowerLeft.y }
    function Area(): real { Width() * Height() }
    predicate ContainsPoint(p: Point) { BoundingBox().ContainsPoint(p) }
  }

  /** A normalised rectangle has non-negative width, height and area. */
  lemma NormalRectExtent(r: Rect)
    requires r.Normal()
    ensures r.Width() >= 0.0 && r.Height() >= 0.0 && r.Area() >= 0.0 && r.BoundingBox().Normal()
  {
  }

  /** Normalising already normalised corners changes nothing. */
  lemma RectNewIdempotent(r: Rect)
    requires r.Normal()
    ensures Rect.New(r.layerId, r.lowerLeft.x, r.lowerLeft.y, r.upperRight.x, r.upperRight.y) == r
  {
  }

  lemma RectAreaExample()
    ensures Rect.New(0, 0.0, 0.0, 10.0, 5.0).Area() == 50.0
    ensures Rect.New(0, 10.0, 5.0, 0.0, 0.0) == Rect.New(0, 0.0, 0.0, 10.0, 5.0)
  {
  }

  datatype Polygon = Polygon(layerId: LayerId, vertices: seq<Point>) {
    function BoundingBox(): Option<BBox> { PointsBBox(vertices) }
    function VertexCount(): nat { |vertices| }
  }

  datatype Path = Path(layerId: LayerId, points: seq<Point>, width: real) {
    /** The bounding box of the centreline corners pushed out by half the width. */
    function BoundingBox(): Option<BBox> { PointsBBox(Expanded(points, width / 2.0)) }
  }

  /** For every centreline point p, the two points p - (h, h) and p + (h, h), in order. */
  function Expanded(pts: seq<Point>, h: real): (r: seq<Point>)
    ensures |r| == 2 * |pts|
  {
    seq(2 * |pts|, i requires 0 <= i < 2 * |pts| =>
      if i % 2 == 0 then pts[i / 2].Translate(-h, -h) else pts[i / 2].Translate(h, h))
  }

  /** The box `b` pushed out by `d` on every side. */
  function Grow(b: BBox, d: real): BBox {
    BBox(b.min.Translate(-d, -d), b.max.Translate(d, d))
  }

  lemma ExpandedSnoc(pts: seq<Point>, p: Point, h: real)
    ensures Expanded(pts + [p], h) == Expanded(pts, h) + [p.Translate(-h, -h), p.Translate(h, h)]
  {
    var a, b := Expanded(pts + [p], h), Expanded(pts, h) + [p.Translate(-h, -h), p.Translate(h, h)];
    forall i | 0 <= i < |a| ensures a[i] == b[i] {
      if i < 2 * |pts| {
        assert (pts + [p])[i / 2] == pts[i / 2];
      }
    }
  }

  /** One scan step on the two expanded copies of `p` is one scan step on `p`, grown. */
  lemma IncludeExpandedPair(b: BBox, p: Point, h: real)
    ensures Include(Include(Grow(b, Abs(h)), p.Translate(-h, -h)), p.Translate(h, h))
         == Grow(Include(b, p), Abs(h))
  {
  }

  /** The box of the expanded points, after a point is appended, in terms of the box before. */
  lemma PointsBBoxExpandedSnoc(pts: seq<Point>, p: Point, h: real)
    requires |pts| > 0
    ensures PointsBBox(Expanded(pts + [p], h))
         == Some(Include(Include(PointsBBox(Expanded(pts, h)).value, p.Translate(-h, -h)), p.Translate(h, h)))
  {
    var lo, hi := p.Translate(-h, -h), p.Translate(h, h);
    var e, ei := Expanded(pts + [p], h), Expanded(pts, h);
    ExpandedSnoc(pts, p, h);
    assert e[..|e| - 1] == ei + [lo];
    assert (ei + [lo])[..|ei|] == ei;
  }

  /**
   * `Path::bbox` is the centreline's point box grown by half the width on every
   * side (by the absolute value: a negative width swaps the two corner points).
   */
  lemma {:induction false} PathBBoxIsGrownCentreline(pts: seq<Point>, h: real)
    requires |pts| > 0
    ensures PointsBBox(Expanded(pts, h)) == Some(Grow(PointsBBox(pts).value, Abs(h)))
    decreases |pts|
  {
    var n := |pts|;
    var p := pts[n - 1];
    if n == 1 {
      var lo, hi := p.Translate(-h, -h), p.Translate(h, h);
      var e := Expanded(pts, h);
      assert e == [lo, hi];
      assert e[..1] == [lo];
    } else {
      var init := pts[..n - 1];
      assert pts == init + [p];
      PathBBoxIsGrownCentreline(init, h);
      PointsBBoxExpandedSnoc(init, p, h);
      IncludeExpandedPair(PointsBBox(init).value, p, h);
    }
  }

  lemma PathBBoxSpec(path: Path)
    ensures path.BoundingBox().None? <==> |path.points| == 0
    ensures |path.points| > 0 ==> path.BoundingBox() == Some(Grow(PointsBBox(path.points).value, Abs(path.width) / 2.0))
  {
    if |path.points| > 0 {
      PathBBoxIsGrownCentreline(path.points, path.width / 2.0);
      assert Abs(path.width / 2.0) == Abs(path.width) / 2.0;
    }
  }

  datatype Via = Via(bottomLayer: LayerId, topLayer: LayerId, cutLayer: LayerId,
                     position: Point, width: real, height: real) {
    /** A box centred on `position` spanning `width` x `height`. */
    function BoundingBox(): (r: BBox)
      ensures r.Center() == position && r.Width() == width && r.Height() == height
    {
      BBox(position.Translate(-width / 2.0, -height / 2.0), position.Translate(width / 2.0, height / 2.0))
    }
  }

  datatype GeomPrimitive =
    | RectGeom(rect: Rect)
    | PolygonGeom(polygon: Polygon)
    | PathGeom(path: Path)
    | ViaGeom(via: Via)
  {
    /** Absent only for a polygon without vertices or a path without points. */
    function BoundingBox(): (r: Option<BBox>)
      ensures r.None? <==> (PolygonGeom? && |polygon.vertices| == 0) || (PathGeom? && |path.points| == 0)
    {
      match this
      case RectGeom(r) => Some(r.BoundingBox())
      case PolygonGeom(p) => p.BoundingBox()
      case PathGeom(p) => p.BoundingBox()
      case ViaGeom(v) => Some(v.BoundingBox())
    }

    /** The layer a primitive is drawn on; a via reports its cut layer. */
    function LayerId(): (l: LayerId)
      ensures ViaGeom? ==> l == via.cutLayer
      ensures RectGeom? ==> l == rect.layerId
      ensures PolygonGeom? ==> l == polygon.layerId
      ensures PathGeom? ==> l == path.layerId
    {
      match this
      case RectGeom(r) => r.layerId
      case PolygonGeom(p) => p.layerId
      case PathGeom(p) => p.layerId
      case ViaGeom(v) => v.cutLayer
    }
  }
}
