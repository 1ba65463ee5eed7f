/**
 * The database unit a written library is read back with.  The writer's UNITS record holds the
 * size of a database unit in user units (1e-6) and then in metres (1e-9).  The reader scales the
 * first of the two by a million as if it were in metres, and every real the program writes reads
 * back sixteen times larger (its exponent starts at 1).  So a written library comes back with a
 * unit of about 16 micrometres instead of 1 nanometre, and every coordinate about 16000 times too
 * large.  Correcting only the reader's rule still leaves a factor of 16; correcting both the rule
 * and the encoder brings a written path back where it was.
 */
module GdsUnits {
  import opened Common
  import opened Geometry
  import opened GdsCodec
  import opened GdsReading
  import opened GdsWriting
  import opened GdsRoundTrip

  /** A length in micrometres that the writer stores without loss: a whole number of nanometres in the 32-bit range. */
  predicate WholeNm(v: real)
  {
    -0x8000_0000 as real <= v * Scale <= 0x7FFF_FFFF as real && (v * Scale).Floor as real == v * Scale
  }

  predicate WholeNmPoints(pts: seq<Point>)
  {
    forall i :: 0 <= i < |pts| ==> WholeNm(pts[i].x) && WholeNm(pts[i].y)
  }

  /**
   * `q` is the path `p` on the same layer with every coordinate and the width turned into nanometres
   * (times `Scale`) and then taken as counts of `unit`: multiplied by `Scale * unit`.
   */
  predicate Magnified(q: GeomPrimitive, p: Path, unit: real)
  {
    && q.PathGeom? && q.path.layerId == p.layerId && q.path.width == p.width * Scale * unit
    && ScaledPoints(q.path.points, p.points, unit)
  }

  /** `back` is `pts` with every coordinate multiplied by `Scale * unit`. */
  predicate ScaledPoints(back: seq<Point>, pts: seq<Point>, unit: real)
  {
    |back| == |pts| && forall i :: 0 <= i < |pts| ==> back[i] == Point(pts[i].x * Scale * unit, pts[i].y * Scale * unit)
  }

  /** A whole-nanometre length is written as its count of nanometres and read back as that count times the unit. */
  lemma CoordBack(v: real, unit: real)
    requires WholeNm(v)
    ensures Scaled(Coord(v), unit) == v * Scale * unit
  {
    IntegralRealAsI32((v * Scale).Floor);
  }

  /** A whole-nanometre point is written as two counts of nanometres and read back as those counts of `unit`. */
  lemma CoordsBack(x: real, y: real, unit: real)
    requires WholeNm(x) && WholeNm(y)
    ensures Point(Scaled(Coord(x), unit), Scaled(Coord(y), unit)) == Point(x * Scale * unit, y * Scale * unit)
  {
    CoordBack(x, unit);
    CoordBack(y, unit);
  }

  /** The `i`-th point of an XY payload: its `i`-th coordinate pair, scaled. */
  lemma XyPointsAt(data: seq<byte>, unit: real, i: nat)
    requires i < |I32s(data)| / 2
    ensures i < |XyPoints(data, unit)|
    ensures XyPoints(data, unit)[i] == Point(Scaled(I32s(data)[2 * i], unit), Scaled(I32s(data)[2 * i + 1], unit))
  {
  }

  /** The `i`-th written point, read back: its written coordinates, scaled. */
  lemma PointCoordsBack(pts: seq<Point>, unit: real, i: nat)
    requires i < |pts|
    ensures i < |XyPoints(I32sBytes(PointCoords(pts)), unit)|
    ensures XyPoints(I32sBytes(PointCoords(pts)), unit)[i] == Point(Scaled(Coord(pts[i].x), unit), Scaled(Coord(pts[i].y), unit))
  {
    var cs := PointCoords(pts);
    I32sRoundTrip(cs, []);
    assert I32sBytes(cs) + [] == I32sBytes(cs);
    XyPointsAt(I32sBytes(cs), unit, i);
  }

  /** Written points come back one by one as their written coordinates, scaled. */
  lemma PointsCoordsBack(pts: seq<Point>, unit: real)
    ensures |XyPoints(I32sBytes(PointCoords(pts)), unit)| == |pts|
    ensures forall i :: 0 <= i < |pts| ==>
              XyPoints(I32sBytes(PointCoords(pts)), unit)[i] == Point(Scaled(Coord(pts[i].x), unit), Scaled(Coord(pts[i].y), unit))
  {
    assert |I32sBytes(PointCoords(pts))| == 8 * |pts|;
    forall i | 0 <= i < |pts|
      ensures XyPoints(I32sBytes(PointCoords(pts)), unit)[i] == Point(Scaled(Coord(pts[i].x), unit), Scaled(Coord(pts[i].y), unit))
    {
      PointCoordsBack(pts, unit, i);
    }
  }

  /** Points read back as their written whole-nanometre coordinates are the points multiplied by `Scale * unit`. */
  lemma WholeNmPointsBack(back: seq<Point>, pts: seq<Point>, unit: real)
    requires WholeNmPoints(pts) && |back| == |pts|
    requires forall i :: 0 <= i < |pts| ==> back[i] == Point(Scaled(Coord(pts[i].x), unit), Scaled(Coord(pts[i].y), unit))
    ensures ScaledPoints(back, pts, unit)
  {
    forall i | 0 <= i < |pts|
      ensures back[i] == Point(pts[i].x * Scale * unit, pts[i].y * Scale * unit)
    {
      CoordsBack(pts[i].x, pts[i].y, unit);
    }
  }

  /** A written path comes back as the path of its layer, its points read back and its width `w` read back. */
  lemma PathElementBack(p: Path, unit: real, w: real)
    requires |p.points| > 0 && p.layerId < 0x8000 && w == Scaled(Coord(p.width), unit)
    ensures ElementBack(PathGeom(p), unit) == Some(PathGeom(Path(p.layerId, XyPoints(I32sBytes(PointCoords(p.points)), unit), w)))
  {
    assert |I32sBytes(PointCoords(p.points))| == 8 * |p.points|;
  }

  /** A written path of whole-nanometre points comes back with its points and width multiplied by `Scale * unit`. */
  lemma PathBack(p: Path, unit: real)
    requires |p.points| > 0 && p.layerId < 0x8000 && WholeNmPoints(p.points) && WholeNm(p.width)
    ensures ElementBack(PathGeom(p), unit).Some? && Magnified(ElementBack(PathGeom(p), unit).value, p, unit)
  {
    var back := XyPoints(I32sBytes(PointCoords(p.points)), unit);
    var w := p.width * Scale * unit;
    PointsCoordsBack(p.points, unit);
    WholeNmPointsBack(back, p.points, unit);
    assert ElementBack(PathGeom(p), unit) == Some(PathGeom(Path(p.layerId, back, w))) by {
      CoordBack(p.width, unit);
      PathElementBack(p, unit, w);
    }
  }

  // ── As written: the first UNITS value, the program's encoder ──

  /** With the unit the reader takes from the program's UNITS record, a written path comes back about 16000 times larger. */
  lemma WrittenPathMagnified(p: Path)
    requires |p.points| > 0 && p.layerId < 0x8000 && WholeNmPoints(p.points) && WholeNm(p.width)
    ensures 15_999.984 <= Scale * UnitBack(SourceNormalise) <= 16_000.0
    ensures ElementBack(PathGeom(p), UnitBack(SourceNormalise)).Some?
    ensures Magnified(ElementBack(PathGeom(p), UnitBack(SourceNormalise)).value, p, UnitBack(SourceNormalise))
  {
    UnitBackNear();
    PathBack(p, UnitBack(SourceNormalise));
  }

  /** A path through (1, 0.5) written and read back is not the path written: its point comes back near (16000, 8000). */
  lemma WrittenPathExample()
    ensures ElementBack(PathGeom(Path(1, [Point(1.0, 0.5)], 0.1)), UnitBack(SourceNormalise)).Some?
    ensures ElementBack(PathGeom(Path(1, [Point(1.0, 0.5)], 0.1)), UnitBack(SourceNormalise)).value.path.points[0].x >= 15_999.984
  {
    var p := Path(1, [Point(1.0, 0.5)], 0.1);
    assert (1.0 * Scale).Floor == 1000 && (0.5 * Scale).Floor == 500 && (0.1 * Scale).Floor == 100;
    WrittenPathMagnified(p);
  }

  // ── Corrected: the UNITS value in metres, and the encoder's exponent from 0 ──

  /** UNITS read as its layout intends: the second value is the database unit in metres, times a million in micrometres. */
  function UnitFromUnits(units: seq<real>, unit: real): (u: real)
    ensures |units| >= 2 ==> u / 1_000_000.0 == units[1]
    ensures |units| < 2 ==> u == unit
  {
    if |units| >= 2 then units[1] * 1_000_000.0 else unit
  }

  /** The unit the corrected rule takes from the UNITS record written with `normalise`. */
  function CorrectedUnitBack(normalise: real -> Excess64): real
  {
    UnitFromUnits(Real8s(Real8sBytes([DbUnitInUm * 0.001, DbUnitInUm * 0.000_001], normalise)), DbUnitInUm)
  }

  /**
   * The corrected rule on the program's bytes gives about 0.016 µm, sixteen times the writer's unit;
   * on the corrected encoder's bytes it gives back the writer's own unit, 1 nm.
   */
  lemma CorrectedUnitNear()
    ensures 0.015_999_984 <= CorrectedUnitBack(SourceNormalise) <= 0.016
    ensures 0.000_999_999 <= CorrectedUnitBack(CorrectedNormalise) <= 0.001
  {
    Real8sTwo(DbUnitInUm * 0.001, DbUnitInUm * 0.000_001, SourceNormalise);
    Real8sTwo(DbUnitInUm * 0.001, DbUnitInUm * 0.000_001, CorrectedNormalise);
    NanoBack();
  }

  /** With only the reader's rule corrected, a path the program writes still comes back about 16 times larger. */
  lemma ReaderOnlyCorrectedPath(p: Path)
    requires |p.points| > 0 && p.layerId < 0x8000 && WholeNmPoints(p.points) && WholeNm(p.width)
    ensures 15.999_984 <= Scale * CorrectedUnitBack(SourceNormalise) <= 16.0
    ensures ElementBack(PathGeom(p), CorrectedUnitBack(SourceNormalise)).Some?
    ensures Magnified(ElementBack(PathGeom(p), CorrectedUnitBack(SourceNormalise)).value, p, CorrectedUnitBack(SourceNormalise))
  {
    CorrectedUnitNear();
    PathBack(p, CorrectedUnitBack(SourceNormalise));
  }

  /** With the reader's rule and the encoder both corrected, a written path comes back where it was, to within one part in a million. */
  lemma CorrectedPathRoundTrip(p: Path)
    requires |p.points| > 0 && p.layerId < 0x8000 && WholeNmPoints(p.points) && WholeNm(p.width)
    ensures 0.999_999 <= Scale * CorrectedUnitBack(CorrectedNormalise) <= 1.0
    ensures ElementBack(PathGeom(p), CorrectedUnitBack(CorrectedNormalise)).Some?
    ensures Magnified(ElementBack(PathGeom(p), CorrectedUnitBack(CorrectedNormalise)).value, p, CorrectedUnitBack(CorrectedNormalise))
  {
    CorrectedUnitNear();
    PathBack(p, CorrectedUnitBack(CorrectedNormalise));
  }
}
