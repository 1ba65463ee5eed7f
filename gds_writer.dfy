/**
 * The GDSII writer. What it emits is specified as a list of records per database entity;
 * the writer's methods append the bytes of exactly those records to the output.
 */
module GdsWriting {
  import opened Common
  import opened Geometry
  import opened CellModel
  import opened Database
  import opened GdsCodec

  /** The writer's database unit, 1 nm, in micrometres. */
  const DbUnitInUm: real := 0.001

  /** Database units per micrometre, `1.0 / DbUnitInUm`. */
  const Scale: real := 1000.0

  /** A length in micrometres as a count of database units: `(v * scale) as i32`. */
  function Coord(v: real): (c: i32)
    ensures -0x8000_0000 as real <= v * Scale <= 0x7FFF_FFFF as real ==> c == Trunc(v * Scale)
  {
    RealAsI32(v * Scale)
  }

  /** The modification and access dates stamped on the library and on every structure. */
  const Timestamp: seq<i16> := [2026, 2, 6, 0, 0, 0, 2026, 2, 6, 0, 0, 0]

  // ── Records ──

  function Empty(t: u16): GdsRecord { GdsRecord(t, []) }
  function I16Record(t: u16, vs: seq<i16>): GdsRecord { GdsRecord(t, I16sBytes(vs)) }
  function I32Record(t: u16, vs: seq<i32>): GdsRecord { GdsRecord(t, I32sBytes(vs)) }
  function StringRecord(t: u16, s: string): GdsRecord { GdsRecord(t, PaddedStringBytes(s)) }
  function Real8Record(t: u16, vs: seq<real>, normalise: real -> Excess64): GdsRecord { GdsRecord(t, Real8sBytes(vs, normalise)) }

  /** The coordinates of some points, x then y for each, in database units. */
  function PointCoords(pts: seq<Point>): (cs: seq<i32>)
    ensures |cs| == 2 * |pts|
    ensures forall i :: 0 <= i < |pts| ==> cs[2 * i] == Coord(pts[i].x) && cs[2 * i + 1] == Coord(pts[i].y)
  {
    if |pts| == 0 then []
    else
      var rest := PointCoords(pts[1..]);
      assert forall i :: 1 <= i < |pts| ==> rest[2 * (i - 1)] == Coord(pts[i].x) && rest[2 * (i - 1) + 1] == Coord(pts[i].y);
      [Coord(pts[0].x), Coord(pts[0].y)] + rest
  }

  /** A rectangle: a BOUNDARY whose XY closes the four corners into five points. */
  function RectRecords(r: Rect): seq<GdsRecord>
  {
    [ Empty(BOUNDARY), I16Record(LAYER, [U32AsI16(r.layerId)]), I16Record(DATATYPE, [0]),
      I32Record(XY, RectCoords(r)), Empty(ENDEL) ]
  }

  /** The corners lower-left, lower-right, upper-right, upper-left and lower-left again. */
  function RectCoords(r: Rect): seq<i32>
  {
    var x1, y1, x2, y2 := Coord(r.lowerLeft.x), Coord(r.lowerLeft.y), Coord(r.upperRight.x), Coord(r.upperRight.y);
    [x1, y1, x2, y1, x2, y2, x1, y2, x1, y1]
  }

  /** The XY of a polygon: its vertices, closed by repeating the first one if there is one. */
  function PolygonCoords(p: Polygon): seq<i32>
  {
    PointCoords(p.vertices) + (if |p.vertices| > 0 then [Coord(p.vertices[0].x), Coord(p.vertices[0].y)] else [])
  }

  function PolygonRecords(p: Polygon): seq<GdsRecord>
  {
    [ Empty(BOUNDARY), I16Record(LAYER, [U32AsI16(p.layerId)]), I16Record(DATATYPE, [0]),
      I32Record(XY, PolygonCoords(p)), Empty(ENDEL) ]
  }

  function PathRecords(p: Path): seq<GdsRecord>
  {
    [ Empty(PATH), I16Record(LAYER, [U32AsI16(p.layerId)]), I16Record(DATATYPE, [0]),
      I32Record(WIDTH, [Coord(p.width)]), I32Record(XY, PointCoords(p.points)), Empty(ENDEL) ]
  }

  /** A via goes out as the rectangle of its extent on the cut layer. */
  function ViaRect(v: Via): (r: Rect)
    ensures r.layerId == v.cutLayer
  {
    var halfW, halfH := v.width / 2.0, v.height / 2.0;
    Rect.New(v.cutLayer, v.position.x - halfW, v.position.y - halfH, v.position.x + halfW, v.position.y + halfH)
  }

  function GeometryRecords(g: GeomPrimitive): seq<GdsRecord>
  {
    match g
    case RectGeom(r) => RectRecords(r)
    case PolygonGeom(p) => PolygonRecords(p)
    case PathGeom(p) => PathRecords(p)
    case ViaGeom(v) => RectRecords(ViaRect(v))
  }

  /** STRANS with only the mirror bit when mirrored, zero when rotated or scaled, else none. */
  function StransRecords(t: Transform): seq<GdsRecord>
  {
    if t.mirrorX then [I16Record(STRANS, [-0x8000])]
    else if t.rotation != 0.0 || t.scale != 1.0 then [I16Record(STRANS, [0])]
    else []
  }

  function MagRecords(t: Transform, normalise: real -> Excess64): seq<GdsRecord>
  {
    if t.scale != 1.0 then [Real8Record(MAG, [t.scale], normalise)] else []
  }

  function AngleRecords(t: Transform, normalise: real -> Excess64): seq<GdsRecord>
  {
    if t.rotation != 0.0 then [Real8Record(ANGLE, [t.rotation], normalise)] else []
  }

  /** A structure reference: SREF, SNAME, the optional STRANS, MAG and ANGLE, the XY offset, ENDEL. */
  function SrefRecords(inst: CellInstance, normalise: real -> Excess64): seq<GdsRecord>
  {
    var t := inst.transform;
    [Empty(SREF), StringRecord(SNAME, inst.instanceName)] + StransRecords(t) + MagRecords(t, normalise)
      + AngleRecords(t, normalise) + [I32Record(XY, [Coord(t.offset.x), Coord(t.offset.y)]), Empty(ENDEL)]
  }

  function AllGeometryRecords(gs: seq<GeomPrimitive>): seq<GdsRecord>
  {
    if |gs| == 0 then [] else AllGeometryRecords(gs[..|gs| - 1]) + GeometryRecords(gs[|gs| - 1])
  }

  function AllSrefRecords(insts: seq<CellInstance>, normalise: real -> Excess64): seq<GdsRecord>
  {
    if |insts| == 0 then [] else AllSrefRecords(insts[..|insts| - 1], normalise) + SrefRecords(insts[|insts| - 1], normalise)
  }

  /** A structure: BGNSTR, STRNAME, the geometries, the instances, ENDSTR. */
  function CellRecords(c: CellValue, normalise: real -> Excess64, ts: seq<i16>): seq<GdsRecord>
  {
    [I16Record(BGNSTR, ts), StringRecord(STRNAME, c.name)]
      + AllGeometryRecords(c.geometries) + AllSrefRecords(c.instances, normalise) + [Empty(ENDSTR)]
  }

  function AllCellRecords(cs: seq<CellValue>, normalise: real -> Excess64, ts: seq<i16>): seq<GdsRecord>
  {
    if |cs| == 0 then [] else AllCellRecords(cs[..|cs| - 1], normalise, ts) + CellRecords(cs[|cs| - 1], normalise, ts)
  }

  /** The opening records: HEADER (version 600), BGNLIB, LIBNAME and UNITS. */
  function LibHeadRecords(name: string, normalise: real -> Excess64, ts: seq<i16>): seq<GdsRecord>
  {
    [ I16Record(HEADER, [600]), I16Record(BGNLIB, ts), StringRecord(LIBNAME, name),
      Real8Record(UNITS, [DbUnitInUm * 0.001, DbUnitInUm * 0.000_001], normalise) ]
  }

  /** A whole library: the opening records, every cell in the given order, ENDLIB. */
  function LibRecords(name: string, cells: seq<CellValue>, normalise: real -> Excess64, ts: seq<i16>): seq<GdsRecord>
  {
    LibHeadRecords(name, normalise, ts) + AllCellRecords(cells, normalise, ts) + [Empty(ENDLIB)]
  }

  // ── Bytes ──

  /** The records as they go on the wire, one after the other. */
  function Bytes(rs: seq<GdsRecord>): (b: seq<byte>)
  {
    if |rs| == 0 then [] else RecordBytes(rs[0]) + Bytes(rs[1..])
  }

  lemma {:induction false} BytesAppend(a: seq<GdsRecord>, b: seq<GdsRecord>)
    ensures Bytes(a + b) == Bytes(a) + Bytes(b)
    decreases |a|
  {
    if |a| == 0 {
      assert a + b == b;
    } else {
      assert (a + b)[1..] == a[1..] + b;
      BytesAppend(a[1..], b);
    }
  }

  /** Output followed by the bytes of two lists of records is output followed by the bytes of both. */
  lemma Join(o: seq<byte>, a: seq<GdsRecord>, b: seq<GdsRecord>)
    ensures o + Bytes(a) + Bytes(b) == o + Bytes(a + b)
  {
    BytesAppend(a, b);
  }

  /** One record on its own is exactly its bytes. */
  lemma Bytes1(a: GdsRecord)
    ensures Bytes([a]) == RecordBytes(a)
  {
    assert Bytes([a]) == RecordBytes(a) + Bytes([]);
  }

  lemma Bytes2(a: GdsRecord, b: GdsRecord)
    ensures Bytes([a, b]) == RecordBytes(a) + RecordBytes(b)
  {
    assert [a, b][1..] == [b];
    Bytes1(b);
  }

  lemma Bytes3(a: GdsRecord, b: GdsRecord, c: GdsRecord)
    ensures Bytes([a, b, c]) == RecordBytes(a) + Bytes([b, c])
  {
    assert [a, b, c][1..] == [b, c];
  }

  lemma Bytes4(a: GdsRecord, b: GdsRecord, c: GdsRecord, d: GdsRecord)
    ensures Bytes([a, b, c, d]) == RecordBytes(a) + Bytes([b, c, d])
  {
    assert [a, b, c, d][1..] == [b, c, d];
  }

  lemma Bytes5(a: GdsRecord, b: GdsRecord, c: GdsRecord, d: GdsRecord, e: GdsRecord)
    ensures Bytes([a, b, c, d, e]) == RecordBytes(a) + Bytes([b, c, d, e])
  {
    assert [a, b, c, d, e][1..] == [b, c, d, e];
  }

  lemma Bytes6(a: GdsRecord, b: GdsRecord, c: GdsRecord, d: GdsRecord, e: GdsRecord, f: GdsRecord)
    ensures Bytes([a, b, c, d, e, f]) == RecordBytes(a) + Bytes([b, c, d, e, f])
  {
    assert [a, b, c, d, e, f][1..] == [b, c, d, e, f];
  }

  /** Two records written one after the other. */
  lemma Written2(o: seq<byte>, a: GdsRecord, b: GdsRecord)
    ensures o + RecordBytes(a) + RecordBytes(b) == o + Bytes([a, b])
  {
    Bytes2(a, b);
  }

  lemma Written4(o: seq<byte>, a: GdsRecord, b: GdsRecord, c: GdsRecord, d: GdsRecord)
    ensures o + RecordBytes(a) + RecordBytes(b) + RecordBytes(c) + RecordBytes(d) == o + Bytes([a, b, c, d])
  {
    Bytes4(a, b, c, d);
    Bytes3(b, c, d);
    Bytes2(c, d);
  }

  lemma Written5(o: seq<byte>, a: GdsRecord, b: GdsRecord, c: GdsRecord, d: GdsRecord, e: GdsRecord)
    ensures o + RecordBytes(a) + RecordBytes(b) + RecordBytes(c) + RecordBytes(d) + RecordBytes(e) == o + Bytes([a, b, c, d, e])
  {
    Bytes5(a, b, c, d, e);
    Bytes4(b, c, d, e);
    Bytes3(c, d, e);
    Bytes2(d, e);
  }

  lemma Written6(o: seq<byte>, a: GdsRecord, b: GdsRecord, c: GdsRecord, d: GdsRecord, e: GdsRecord, f: GdsRecord)
    ensures o + RecordBytes(a) + RecordBytes(b) + RecordBytes(c) + RecordBytes(d) + RecordBytes(e) + RecordBytes(f)
      == o + Bytes([a, b, c, d, e, f])
  {
    Bytes6(a, b, c, d, e, f);
    Bytes5(b, c, d, e, f);
    Bytes4(c, d, e, f);
    Bytes3(d, e, f);
    Bytes2(e, f);
  }

  lemma AllCellRecordsPrefix(cs: seq<CellValue>, i: nat, normalise: real -> Excess64, ts: seq<i16>)
    requires i < |cs|
    ensures AllCellRecords(cs[..i + 1], normalise, ts) == AllCellRecords(cs[..i], normalise, ts) + CellRecords(cs[i], normalise, ts)
  {
    assert cs[..i + 1][..i] == cs[..i];
  }

  /** A library's bytes are those of its opening records, of its cells and of ENDLIB, in that order. */
  lemma LibBytes(o: seq<byte>, name: string, cs: seq<CellValue>, normalise: real -> Excess64, ts: seq<i16>)
    ensures o + Bytes(LibHeadRecords(name, normalise, ts)) + Bytes(AllCellRecords(cs, normalise, ts)) + RecordBytes(Empty(ENDLIB))
      == o + Bytes(LibRecords(name, cs, normalise, ts))
  {
    var head, body := LibHeadRecords(name, normalise, ts), AllCellRecords(cs, normalise, ts);
    Join(o, head, body);
    Bytes1(Empty(ENDLIB));
    Join(o, head + body, [Empty(ENDLIB)]);
  }

  /** The cells of the database in the given order of ids. */
  function InOrder(cells: map<CellId, CellValue>, order: seq<CellId>): (cs: seq<CellValue>)
    requires forall i :: 0 <= i < |order| ==> order[i] in cells
    ensures |cs| == |order|
    ensures forall i :: 0 <= i < |order| ==> cs[i] == cells[order[i]]
  {
    seq(|order|, i requires 0 <= i < |order| => cells[order[i]])
  }

  /** Some order of the given ids, each exactly once, as a hash map's iteration yields them. */
  method IterationOrder(keys: set<CellId>) returns (order: seq<CellId>)
    ensures |order| == |keys| && (forall k :: k in keys <==> k in order)
    ensures forall i, j :: 0 <= i < j < |order| ==> order[i] != order[j]
  {
    var remaining := keys;
    order := [];
    while remaining != {}
      invariant remaining <= keys
      invariant forall k :: k in keys ==> (k in remaining <==> k !in order)
      invariant forall k :: k in order ==> k in keys
      invariant forall i, j :: 0 <= i < j < |order| ==> order[i] != order[j]
      invariant |order| + |remaining| == |keys|
      decreases |remaining|
    {
      var k :| k in remaining;
      order := order + [k];
      remaining := remaining - {k};
    }
  }

  /** The writer: the bytes emitted so far; its reals are written by `F64ToGdsReal8`. */
  class GdsWriter {
    var output: seq<byte>
    /** The modification and access dates of BGNLIB and BGNSTR, fixed when the writer is made. */
    const timestamp: seq<i16>

    constructor ()
      ensures output == [] && timestamp == Timestamp
    {
      output := [];
      timestamp := Timestamp;
    }

    /** The 16-bit length (payload plus the 4-byte header, wrapping), the type and the payload. */
    method WriteRecord(t: u16, data: seq<byte>)
      modifies this
      ensures output == old(output) + RecordBytes(GdsRecord(t, data))
    {
      var totalLen := (|data| + 4) % 0x1_0000;
      output := output + BeBytes(totalLen, 2);
      output := output + BeBytes(t, 2);
      if |data| > 0 {
        output := output + data;
      }
    }

    method WriteI16Record(t: u16, values: seq<i16>)
      modifies this
      ensures output == old(output) + RecordBytes(I16Record(t, values))
    {
      WriteRecord(t, I16sBytes(values));
    }

    method WriteI32Record(t: u16, values: seq<i32>)
      modifies this
      ensures output == old(output) + RecordBytes(I32Record(t, values))
    {
      WriteRecord(t, I32sBytes(values));
    }

    /** The string's bytes, padded with a NUL to an even length. */
    method WriteStringRecord(t: u16, s: string)
      modifies this
      ensures output == old(output) + RecordBytes(StringRecord(t, s))
    {
      var data := StringBytes(s);
      if |data| % 2 != 0 {
        data := data + [0];
      }
      WriteRecord(t, data);
    }

    method WriteReal8Record(t: u16, values: seq<real>)
      modifies this
      ensures output == old(output) + RecordBytes(Real8Record(t, values, SourceNormalise))
    {
      var data := Real8sPayload(values);
      WriteRecord(t, data);
    }

    method WriteRect(r: Rect)
      modifies this
      ensures output == old(output) + Bytes(RectRecords(r))
    {
      var x1, y1 := Coord(r.lowerLeft.x), Coord(r.lowerLeft.y);
      var x2, y2 := Coord(r.upperRight.x), Coord(r.upperRight.y);
      WriteRecord(BOUNDARY, []);
      WriteI16Record(LAYER, [U32AsI16(r.layerId)]);
      WriteI16Record(DATATYPE, [0]);
      WriteI32Record(XY, [x1, y1, x2, y1, x2, y2, x1, y2, x1, y1]);
      WriteRecord(ENDEL, []);
      Written5(old(output), Empty(BOUNDARY), I16Record(LAYER, [U32AsI16(r.layerId)]), I16Record(DATATYPE, [0]),
        I32Record(XY, [x1, y1, x2, y1, x2, y2, x1, y2, x1, y1]), Empty(ENDEL));
    }

    method WritePolygon(p: Polygon)
      modifies this
      ensures output == old(output) + Bytes(PolygonRecords(p))
    {
      WriteRecord(BOUNDARY, []);
      WriteI16Record(LAYER, [U32AsI16(p.layerId)]);
      WriteI16Record(DATATYPE, [0]);
      var coords := PointCoords(p.vertices);
      if |p.vertices| > 0 {
        coords := coords + [Coord(p.vertices[0].x), Coord(p.vertices[0].y)];
      }
      WriteI32Record(XY, coords);
      WriteRecord(ENDEL, []);
      Written5(old(output), Empty(BOUNDARY), I16Record(LAYER, [U32AsI16(p.layerId)]), I16Record(DATATYPE, [0]),
        I32Record(XY, coords), Empty(ENDEL));
    }

    method WritePath(p: Path)
      modifies this
      ensures output == old(output) + Bytes(PathRecords(p))
    {
      WriteRecord(PATH, []);
      WriteI16Record(LAYER, [U32AsI16(p.layerId)]);
      WriteI16Record(DATATYPE, [0]);
      WriteI32Record(WIDTH, [Coord(p.width)]);
      var coords := PointCoords(p.points);
      WriteI32Record(XY, coords);
      WriteRecord(ENDEL, []);
      Written6(old(output), Empty(PATH), I16Record(LAYER, [U32AsI16(p.layerId)]), I16Record(DATATYPE, [0]),
        I32Record(WIDTH, [Coord(p.width)]), I32Record(XY, coords), Empty(ENDEL));
    }

    method WriteVia(v: Via)
      modifies this
      ensures output == old(output) + Bytes(RectRecords(ViaRect(v)))
    {
      var r := ViaRect(v);
      WriteRect(r);
    }

    /** The STRANS record of a reference, if it has one. */
    method WriteStrans(t: Transform)
      modifies this
      ensures output == old(output) + Bytes(StransRecords(t))
    {
      if t.mirrorX {
        WriteI16Record(STRANS, [-0x8000]);
        Bytes1(I16Record(STRANS, [-0x8000]));
      } else if t.rotation != 0.0 || t.scale != 1.0 {
        WriteI16Record(STRANS, [0]);
        Bytes1(I16Record(STRANS, [0]));
      }
    }

    method WriteMag(t: Transform)
      modifies this
      ensures output == old(output) + Bytes(MagRecords(t, SourceNormalise))
    {
      if t.scale != 1.0 {
        WriteReal8Record(MAG, [t.scale]);
        Bytes1(Real8Record(MAG, [t.scale], SourceNormalise));
      }
    }

    method WriteAngle(t: Transform)
      modifies this
      ensures output == old(output) + Bytes(AngleRecords(t, SourceNormalise))
    {
      if t.rotation != 0.0 {
        WriteReal8Record(ANGLE, [t.rotation]);
        Bytes1(Real8Record(ANGLE, [t.rotation], SourceNormalise));
      }
    }

    method WriteSref(inst: CellInstance)
      modifies this
      ensures output == old(output) + Bytes(SrefRecords(inst, SourceNormalise))
    {
      var t := inst.transform;
      ghost var o := old(output);
      ghost var head := [Empty(SREF), StringRecord(SNAME, inst.instanceName)];
      WriteRecord(SREF, []);
      WriteStringRecord(SNAME, inst.instanceName);
      Written2(o, Empty(SREF), StringRecord(SNAME, inst.instanceName));
      WriteStrans(t);
      Join(o, head, StransRecords(t));
      WriteMag(t);
      Join(o, head + StransRecords(t), MagRecords(t, SourceNormalise));
      WriteAngle(t);
      Join(o, head + StransRecords(t) + MagRecords(t, SourceNormalise), AngleRecords(t, SourceNormalise));
      ghost var front := head + StransRecords(t) + MagRecords(t, SourceNormalise) + AngleRecords(t, SourceNormalise);
      var x := Coord(t.offset.x);
      var y := Coord(t.offset.y);
      WriteI32Record(XY, [x, y]);
      WriteRecord(ENDEL, []);
      Written2(o + Bytes(front), I32Record(XY, [x, y]), Empty(ENDEL));
      Join(o, front, [I32Record(XY, [x, y]), Empty(ENDEL)]);
    }

    method WriteGeometry(g: GeomPrimitive)
      modifies this
      ensures output == old(output) + Bytes(GeometryRecords(g))
    {
      match g
      case RectGeom(r) => WriteRect(r);
      case PolygonGeom(p) => WritePolygon(p);
      case PathGeom(p) => WritePath(p);
      case ViaGeom(v) => WriteVia(v);
    }

    /** Every geometry of a cell, in order. */
    method WriteGeometries(gs: seq<GeomPrimitive>)
      modifies this
      ensures output == old(output) + Bytes(AllGeometryRecords(gs))
    {
      for i := 0 to |gs|
        invariant output == old(output) + Bytes(AllGeometryRecords(gs[..i]))
      {
        WriteGeometry(gs[i]);
        assert gs[..i + 1][..i] == gs[..i];
        Join(old(output), AllGeometryRecords(gs[..i]), GeometryRecords(gs[i]));
      }
      assert gs[..|gs|] == gs;
    }

    /** Every instance of a cell, in order. */
    method WriteSrefs(insts: seq<CellInstance>)
      modifies this
      ensures output == old(output) + Bytes(AllSrefRecords(insts, SourceNormalise))
    {
      for i := 0 to |insts|
        invariant output == old(output) + Bytes(AllSrefRecords(insts[..i], SourceNormalise))
      {
        WriteSref(insts[i]);
        assert insts[..i + 1][..i] == insts[..i];
        Join(old(output), AllSrefRecords(insts[..i], SourceNormalise), SrefRecords(insts[i], SourceNormalise));
      }
      assert insts[..|insts|] == insts;
    }

    /** BGNSTR, STRNAME, every geometry and every instance in order, ENDSTR. */
    method WriteCell(cell: Cell)
      modifies this
      ensures output == old(output) + Bytes(CellRecords(cell.Value(), SourceNormalise, timestamp))
    {
      ghost var o := old(output);
      ghost var head := [I16Record(BGNSTR, timestamp), StringRecord(STRNAME, cell.name)];
      WriteI16Record(BGNSTR, timestamp);
      WriteStringRecord(STRNAME, cell.name);
      Written2(o, I16Record(BGNSTR, timestamp), StringRecord(STRNAME, cell.name));
      WriteGeometries(cell.geometries);
      Join(o, head, AllGeometryRecords(cell.geometries));
      ghost var front := head + AllGeometryRecords(cell.geometries);
      WriteSrefs(cell.instances);
      Join(o, front, AllSrefRecords(cell.instances, SourceNormalise));
      WriteRecord(ENDSTR, []);
      Bytes1(Empty(ENDSTR));
      Join(o, front + AllSrefRecords(cell.instances, SourceNormalise), [Empty(ENDSTR)]);
    }

    /** HEADER (version 600), BGNLIB, LIBNAME and UNITS. */
    method WriteLibHead(name: string)
      modifies this
      ensures output == old(output) + Bytes(LibHeadRecords(name, SourceNormalise, timestamp))
    {
      WriteI16Record(HEADER, [600]);
      WriteI16Record(BGNLIB, timestamp);
      WriteStringRecord(LIBNAME, name);
      WriteReal8Record(UNITS, [DbUnitInUm * 0.001, DbUnitInUm * 0.000_001]);
      Written4(old(output), I16Record(HEADER, [600]), I16Record(BGNLIB, timestamp), StringRecord(LIBNAME, name),
        Real8Record(UNITS, [DbUnitInUm * 0.001, DbUnitInUm * 0.000_001], SourceNormalise));
    }

    /** The given cells of the database, one after the other; `cs` are their values. */
    method WriteCells(db: LayoutDatabase, order: seq<CellId>, ghost cs: seq<CellValue>)
      requires |cs| == |order|
      requires forall i :: 0 <= i < |order| ==> order[i] in db.cells && cs[i] == db.cells[order[i]].Value()
      modifies this
      ensures output == old(output) + Bytes(AllCellRecords(cs, SourceNormalise, timestamp))
    {
      for i := 0 to |order|
        invariant output == old(output) + Bytes(AllCellRecords(cs[..i], SourceNormalise, timestamp))
      {
        ghost var before := output;
        WriteCell(db.cells[order[i]]);
        assert output == before + Bytes(CellRecords(cs[i], SourceNormalise, timestamp));
        AllCellRecordsPrefix(cs, i, SourceNormalise, timestamp);
        Join(old(output), AllCellRecords(cs[..i], SourceNormalise, timestamp), CellRecords(cs[i], SourceNormalise, timestamp));
      }
      assert cs[..|order|] == cs;
    }

    /** Writes the library: the opening records, every cell in some order of the map, ENDLIB. */
    method Write(db: LayoutDatabase) returns (order: seq<CellId>)
      modifies this
      ensures |order| == |db.cells| && (forall k :: k in db.cells <==> k in order)
      ensures forall i, j :: 0 <= i < j < |order| ==> order[i] != order[j]
      ensures output == old(output) + Bytes(LibRecords(db.name, InOrder(old(Snapshot(db.cells)), order), SourceNormalise, timestamp))
    {
      ghost var o, snap := output, Snapshot(db.cells);
      WriteLibHead(db.name);
      order := IterationOrder(db.cells.Keys);
      ghost var cs := InOrder(snap, order);
      WriteCells(db, order, cs);
      WriteRecord(ENDLIB, []);
      LibBytes(o, db.name, cs, SourceNormalise, timestamp);
      assert output == o + Bytes(LibRecords(db.name, cs, SourceNormalise, timestamp));
    }
  }
}
