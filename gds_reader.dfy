/**
 * The GDSII reader: a record-driven state machine over a byte stream with a cursor.
 * Each reading loop is specified by a function that consumes records from a position
 * until its terminating record (or the end of the stream) and returns what it gathered
 * and where it stopped; the reader's methods are proved to agree with those functions.
 */
module GdsReading {
  import opened Common
  import opened Geometry
  import opened CellModel
  import opened Database
  import opened GdsCodec

  datatype Result<T> = Ok(value: T) | Err(error: GdsError)

  /** A value read, and the position right after the records it came from. */
  datatype Parsed<T> = Parsed(value: T, next: nat)

  /** A method's result and final cursor against the function that specifies them. */
  predicate Agrees<T(==)>(r: Result<T>, pos: nat, spec: Result<Parsed<T>>)
  {
    match spec
    case Err(e) => r == Err(e)
    case Ok(p) => r == Ok(p.value) && pos == p.next
  }

  // ── Payload helpers ──

  /** The XY payload as points: consecutive pairs of 32-bit coordinates, scaled by the database unit. */
  function XyPoints(data: seq<byte>, unit: real): (r: seq<Point>)
    ensures |r| == |data| / 8
  {
    var c := I32s(data);
    seq(|c| / 2, i requires 0 <= i < |c| / 2 => Point(Scaled(c[2 * i], unit), Scaled(c[2 * i + 1], unit)))
  }

  /** A coordinate or width in database units scaled to micrometres. */
  function Scaled(v: int, unit: real): real
  {
    v as real * unit
  }

  /** The layer a LAYER record names (the 16-bit value widened with sign extension), or `layer` if it is empty. */
  function LayerOf(rec: GdsRecord, layer: LayerId): LayerId
  {
    var vals := I16s(rec.data);
    if |vals| > 0 then I16AsU32(vals[0]) else layer
  }

  // ── Elements: BOUNDARY, PATH and BOX ──

  /** What an element's records have set so far. */
  datatype ElementAcc = ElementAcc(layer: LayerId, points: seq<Point>, width: real)

  const NoElement := ElementAcc(0, [], 0.0)

  /** One record of an element applied to what was gathered; WIDTH counts only inside a path. */
  function Gather(acc: ElementAcc, rec: GdsRecord, unit: real, isPath: bool): ElementAcc
  {
    if rec.recordType == LAYER then acc.(layer := LayerOf(rec, acc.layer))
    else if rec.recordType == XY then acc.(points := acc.points + XyPoints(rec.data, unit))
    else if isPath && rec.recordType == WIDTH then
      var vals := I32s(rec.data);
      if |vals| > 0 then acc.(width := Scaled(vals[0], unit)) else acc
    else acc
  }

  /** The records of one element up to and including its ENDEL. */
  function ScanElement(s: seq<byte>, pos: nat, unit: real, acc: ElementAcc, isPath: bool): (r: Result<Parsed<ElementAcc>>)
    requires pos <= |s|
    ensures r.Ok? ==> pos <= r.value.next <= |s|
    decreases |s| - pos
  {
    match NextRecord(s, pos)
    case EndOfStream => Ok(Parsed(acc, pos))
    case Failed(e) => Err(e)
    case Next(rec, next) =>
      if rec.recordType == ENDEL then Ok(Parsed(acc, next))
      else ScanElement(s, next, unit, Gather(acc, rec, unit, isPath), isPath)
  }

  /** Reading one record that is not ENDEL continues the element scan with that record gathered. */
  lemma ScanElementStep(s: seq<byte>, pos: nat, unit: real, acc: ElementAcc, isPath: bool)
    requires pos <= |s| && NextRecord(s, pos).Next? && NextRecord(s, pos).rec.recordType != ENDEL
    ensures ScanElement(s, pos, unit, acc, isPath)
         == ScanElement(s, NextRecord(s, pos).next, unit, Gather(acc, NextRecord(s, pos).rec, unit, isPath), isPath)
  {
  }

  /** Reading ENDEL, or reaching the end of the stream, ends the element scan with what was gathered. */
  lemma ScanElementEnd(s: seq<byte>, pos: nat, unit: real, acc: ElementAcc, isPath: bool)
    requires pos <= |s|
    requires NextRecord(s, pos).EndOfStream? || (NextRecord(s, pos).Next? && NextRecord(s, pos).rec.recordType == ENDEL)
    ensures ScanElement(s, pos, unit, acc, isPath)
         == Ok(Parsed(acc, if NextRecord(s, pos).Next? then NextRecord(s, pos).next else pos))
  {
  }

  /** The vertices without the closing one that repeats the first. */
  function DropClosing(points: seq<Point>): (r: seq<Point>)
    ensures r == points || (|points| > 1 && points[0] == points[|points| - 1] && r == points[..|points| - 1])
  {
    if |points| > 1 && points[0] == points[|points| - 1] then points[..|points| - 1] else points
  }

  /** Four points with exactly two distinct x values and two distinct y values. */
  predicate IsAxisAlignedRect(points: seq<Point>)
  {
    && |points| == 4
    && |set i | 0 <= i < |points| :: points[i].x| == 2
    && |set i | 0 <= i < |points| :: points[i].y| == 2
  }

  /** The rectangle spanning the bounding box of some points. */
  function BoxRect(layer: LayerId, points: seq<Point>): (r: Rect)
    requires |points| > 0
    ensures r.layerId == layer && r.BoundingBox() == PointsBBox(points).value
    ensures forall i :: 0 <= i < |points| ==> r.ContainsPoint(points[i])
  {
    var b := PointsBBox(points).value;
    forall i | 0 <= i < |points| ensures b.ContainsPoint(points[i]) {
      PointsBBoxContains(points, i);
    }
    Rect.New(layer, b.min.x, b.min.y, b.max.x, b.max.y)
  }

  /** What a boundary becomes: nothing without vertices, a rectangle for an axis-aligned four-vertex outline, else a polygon. */
  function BoundaryGeometry(acc: ElementAcc): (g: Option<GeomPrimitive>)
    ensures g.None? <==> |DropClosing(acc.points)| == 0
    ensures g.Some? ==> g.value.LayerId() == acc.layer
    ensures g.Some? && g.value.RectGeom? <==> IsAxisAlignedRect(DropClosing(acc.points))
    ensures g.Some? && g.value.PolygonGeom? ==> g.value.polygon.vertices == DropClosing(acc.points)
    ensures g.Some? && g.value.RectGeom? ==> g.value.rect.BoundingBox() == PointsBBox(DropClosing(acc.points)).value
  {
    var pts := DropClosing(acc.points);
    if |pts| == 0 then None
    else if |pts| == 4 && IsAxisAlignedRect(pts) then Some(RectGeom(BoxRect(acc.layer, pts)))
    else Some(PolygonGeom(Polygon(acc.layer, pts)))
  }

  /** What a box becomes: the rectangle spanning its vertices (closing vertex dropped), or nothing without vertices. */
  function BoxGeometry(acc: ElementAcc): (g: Option<GeomPrimitive>)
    ensures g.None? <==> |acc.points| == 0
    ensures g.Some? ==> g.value.RectGeom? && g.value.LayerId() == acc.layer
    ensures g.Some? ==> g.value.rect.BoundingBox() == PointsBBox(DropClosing(acc.points)).value
  {
    var pts := DropClosing(acc.points);
    if |pts| == 0 then None else Some(RectGeom(BoxRect(acc.layer, pts)))
  }

  /** What a path becomes: its points and width as read, or nothing without points. */
  function PathGeometry(acc: ElementAcc): (g: Option<GeomPrimitive>)
    ensures g.None? <==> |acc.points| == 0
    ensures g.Some? ==> g.value == PathGeom(Path(acc.layer, acc.points, acc.width))
  {
    if |acc.points| == 0 then None else Some(PathGeom(Path(acc.layer, acc.points, acc.width)))
  }

  /** The element begun by a BOUNDARY, PATH or BOX record, read from `pos`. */
  function ElementAt(s: seq<byte>, pos: nat, unit: real, kind: u16): (r: Result<Parsed<Option<GeomPrimitive>>>)
    requires pos <= |s|
    ensures r.Ok? ==> pos <= r.value.next <= |s|
  {
    match ScanElement(s, pos, unit, NoElement, kind == PATH)
    case Err(e) => Err(e)
    case Ok(p) =>
      var g := if kind == PATH then PathGeometry(p.value) else if kind == BOX then BoxGeometry(p.value) else BoundaryGeometry(p.value);
      Ok(Parsed(g, p.next))
  }

  // ── Structure references ──

  /** What an SREF's records have set so far. */
  datatype SrefAcc = SrefAcc(name: string, transform: Transform, position: Point)

  const NoSref := SrefAcc("", DefaultTransform, Point(0.0, 0.0))

  /** One record of an SREF applied: SNAME, the mirror bit (bit 15) of STRANS, MAG, ANGLE and the first XY pair. */
  function GatherSref(acc: SrefAcc, rec: GdsRecord, unit: real): SrefAcc
  {
    var t := rec.recordType;
    if t == SNAME then acc.(name := AsString(rec.data))
    else if t == STRANS then
      var vals := I16s(rec.data);
      if |vals| > 0 then acc.(transform := acc.transform.(mirrorX := vals[0] < 0)) else acc
    else if t == MAG then
      var vals := Real8s(rec.data);
      if |vals| > 0 then acc.(transform := acc.transform.(scale := vals[0])) else acc
    else if t == ANGLE then
      var vals := Real8s(rec.data);
      if |vals| > 0 then acc.(transform := acc.transform.(rotation := vals[0])) else acc
    else if t == XY then
      var c := I32s(rec.data);
      if |c| >= 2 then acc.(position := Point(Scaled(c[0], unit), Scaled(c[1], unit))) else acc
    else acc
  }

  function ScanSref(s: seq<byte>, pos: nat, unit: real, acc: SrefAcc): (r: Result<Parsed<SrefAcc>>)
    requires pos <= |s|
    ensures r.Ok? ==> pos <= r.value.next <= |s|
    decreases |s| - pos
  {
    match NextRecord(s, pos)
    case EndOfStream => Ok(Parsed(acc, pos))
    case Failed(e) => Err(e)
    case Next(rec, next) =>
      if rec.recordType == ENDEL then Ok(Parsed(acc, next))
      else ScanSref(s, next, unit, GatherSref(acc, rec, unit))
  }

  /** Reading one record that is not ENDEL continues the SREF scan with that record applied. */
  lemma ScanSrefStep(s: seq<byte>, pos: nat, unit: real, acc: SrefAcc)
    requires pos <= |s| && NextRecord(s, pos).Next? && NextRecord(s, pos).rec.recordType != ENDEL
    ensures ScanSref(s, pos, unit, acc)
         == ScanSref(s, NextRecord(s, pos).next, unit, GatherSref(acc, NextRecord(s, pos).rec, unit))
  {
  }

  /** Reading ENDEL, or reaching the end of the stream, ends the SREF scan. */
  lemma ScanSrefEnd(s: seq<byte>, pos: nat, unit: real, acc: SrefAcc)
    requires pos <= |s|
    requires NextRecord(s, pos).EndOfStream? || (NextRecord(s, pos).Next? && NextRecord(s, pos).rec.recordType == ENDEL)
    ensures ScanSref(s, pos, unit, acc) == Ok(Parsed(acc, if NextRecord(s, pos).Next? then NextRecord(s, pos).next else pos))
  {
  }

  /**
   * The instance an SREF becomes: none without a name; otherwise one named after SNAME, placed
   * at the XY position, with a nil placeholder for the referenced cell.
   */
  function SrefInstance(acc: SrefAcc, id: Uuid): (inst: Option<CellInstance>)
    ensures inst.None? <==> acc.name == ""
    ensures inst.Some? ==> inst.value == CellInstance(id, NilUuid, acc.name, acc.transform.(offset := acc.position))
  {
    if acc.name == "" then None
    else Some(CellInstance(id, NilUuid, acc.name, acc.transform.(offset := acc.position)))
  }

  /** The records up to and including the next ENDEL, ignored. */
  function SkipToEndel(s: seq<byte>, pos: nat): (r: Result<nat>)
    requires pos <= |s|
    ensures r.Ok? ==> pos <= r.value <= |s|
    decreases |s| - pos
  {
    match NextRecord(s, pos)
    case EndOfStream => Ok(pos)
    case Failed(e) => Err(e)
    case Next(rec, next) => if rec.recordType == ENDEL then Ok(next) else SkipToEndel(s, next)
  }

  // ── Structures ──

  /** A cell being read, and the next fresh identifier. */
  datatype StructureAcc = StructureAcc(cell: CellValue, nextId: nat)

  function WithGeometry(cell: CellValue, g: Option<GeomPrimitive>): (c: CellValue)
  {
    if g.Some? then cell.(geometries := cell.geometries + [g.value], modified := true) else cell
  }

  /** The instance, if any, added to the cell being read; each one takes the next fresh id. */
  function WithInstance(acc: StructureAcc, inst: Option<CellInstance>): (r: StructureAcc)
  {
    if inst.Some? then StructureAcc(acc.cell.(instances := acc.cell.instances + [inst.value], modified := true), acc.nextId + 1)
    else acc
  }

  /**
   * What one record of a structure other than ENDSTR does to the cell being read, reading on from
   * `pos` the records of the element it opens: STRNAME names the cell, BOUNDARY, PATH and BOX add
   * a geometry, SREF an instance, TEXT, NODE and AREF are skipped, and anything else is ignored.
   */
  function StructureItem(s: seq<byte>, pos: nat, unit: real, acc: StructureAcc, rec: GdsRecord): (r: Result<Parsed<StructureAcc>>)
    requires pos <= |s|
    ensures r.Ok? ==> pos <= r.value.next <= |s|
    ensures r.Ok? ==> r.value.value.cell.id == acc.cell.id && r.value.value.nextId >= acc.nextId
  {
    var t := rec.recordType;
    if t == STRNAME then Ok(Parsed(acc.(cell := acc.cell.(name := AsString(rec.data))), pos))
    else if t == BOUNDARY || t == PATH || t == BOX then
      match ElementAt(s, pos, unit, t)
      case Err(e) => Err(e)
      case Ok(el) => Ok(Parsed(acc.(cell := WithGeometry(acc.cell, el.value)), el.next))
    else if t == SREF then
      match ScanSref(s, pos, unit, NoSref)
      case Err(e) => Err(e)
      case Ok(sr) => Ok(Parsed(WithInstance(acc, SrefInstance(sr.value, acc.nextId)), sr.next))
    else if t == TEXT || t == NODE || t == AREF then
      match SkipToEndel(s, pos)
      case Err(e) => Err(e)
      case Ok(q) => Ok(Parsed(acc, q))
    else Ok(Parsed(acc, pos))
  }

  /** The records of one structure after its BGNSTR, up to and including ENDSTR. */
  function ScanStructure(s: seq<byte>, pos: nat, unit: real, acc: StructureAcc): (r: Result<Parsed<StructureAcc>>)
    requires pos <= |s|
    ensures r.Ok? ==> pos <= r.value.next <= |s|
    ensures r.Ok? ==> r.value.value.cell.id == acc.cell.id && r.value.value.nextId >= acc.nextId
    decreases |s| - pos
  {
    match NextRecord(s, pos)
    case EndOfStream => Ok(Parsed(acc, pos))
    case Failed(e) => Err(e)
    case Next(rec, next) =>
      if rec.recordType == ENDSTR then Ok(Parsed(acc, next))
      else
        match StructureItem(s, next, unit, acc, rec)
        case Err(e) => Err(e)
        case Ok(p) => ScanStructure(s, p.next, unit, p.value)
  }

  // ── The library ──

  /** The database being filled: its name, the database unit, the cells, the top cell, the next fresh id. */
  datatype LibAcc = LibAcc(name: string, unit: real, cells: map<CellId, CellValue>, top: Option<CellId>, nextId: nat)

  /** `add_cell` on the database's values: file the cell under its id; the first cell becomes the top cell. */
  function AddCellValue(lib: LibAcc, c: CellValue): (r: LibAcc)
    ensures r.cells.Keys == lib.cells.Keys + {c.id} && r.cells[c.id] == c
    ensures r.top == if lib.top.None? then Some(c.id) else lib.top
  {
    lib.(cells := lib.cells[c.id := c], top := if lib.top.None? then Some(c.id) else lib.top)
  }

  /**
   * What one library record other than ENDLIB does, reading on from `pos` the structure a
   * BGNSTR opens: LIBNAME names the database, UNITS (two reals or more) sets the database unit
   * from metres to micrometres, BGNSTR adds a cell, and anything else is skipped.
   */
  function LibItem(s: seq<byte>, pos: nat, lib: LibAcc, rec: GdsRecord): (r: Result<Parsed<LibAcc>>)
    requires pos <= |s|
    ensures r.Ok? ==> pos <= r.value.next <= |s|
    ensures r.Ok? ==> lib.cells.Keys <= r.value.value.cells.Keys
  {
    var t := rec.recordType;
    if t == LIBNAME then Ok(Parsed(lib.(name := AsString(rec.data)), pos))
    else if t == UNITS then
      var units := Real8s(rec.data);
      Ok(Parsed(if |units| >= 2 then lib.(unit := units[0] * 1_000_000.0) else lib, pos))
    else if t == BGNSTR then
      match ScanStructure(s, pos, lib.unit, StructureAcc(UnnamedCell(lib.nextId), lib.nextId + 1))
      case Err(e) => Err(e)
      case Ok(st) => Ok(Parsed(AddCellValue(lib, st.value.cell).(nextId := st.value.nextId), st.next))
    else Ok(Parsed(lib, pos))
  }

  /** The library records up to ENDLIB (or the end of the stream). */
  function ScanLib(s: seq<byte>, pos: nat, lib: LibAcc): (r: Result<LibAcc>)
    requires pos <= |s|
    ensures r.Ok? ==> lib.cells.Keys <= r.value.cells.Keys
    decreases |s| - pos
  {
    match NextRecord(s, pos)
    case EndOfStream => Ok(lib)
    case Failed(e) => Err(e)
    case Next(rec, next) =>
      if rec.recordType == ENDLIB then Ok(lib)
      else
        match LibItem(s, next, lib, rec)
        case Err(e) => Err(e)
        case Ok(p) => ScanLib(s, p.next, p.value)
  }

  /** The first record must be a HEADER; an empty stream is an invalid record at offset 0. */
  function HeaderAt(s: seq<byte>, pos: nat): (r: Result<nat>)
    requires pos <= |s|
    ensures pos + 2 > |s| ==> r == Err(InvalidRecord(0))
    ensures r.Err? && r.error.UnexpectedRecord? ==> r.error.expected == HEADER && r.error.recordType != HEADER
    ensures r.Ok? ==> NextRecord(s, pos).Next? && NextRecord(s, pos).rec.recordType == HEADER && r.value == NextRecord(s, pos).next
  {
    match NextRecord(s, pos)
    case EndOfStream => Err(InvalidRecord(0))
    case Failed(e) => Err(e)
    case Next(rec, next) =>
      if rec.recordType != HEADER then Err(UnexpectedRecord(rec.recordType, HEADER)) else Ok(next)
  }

  /**
   * A stream read from `pos` into a fresh database "imported" whose id is `firstId`: the HEADER
   * record, then the library; cells take the ids after `firstId`.
   */
  function ReadLibrary(s: seq<byte>, pos: nat, unit: real, firstId: nat): (r: Result<LibAcc>)
    requires pos <= |s|
    ensures r.Ok? ==> HeaderAt(s, pos).Ok?
  {
    match HeaderAt(s, pos)
    case Err(e) => Err(e)
    case Ok(p) => ScanLib(s, p, LibAcc("imported", unit, map[], None, firstId + 1))
  }

  /** The structure scan stops at ENDSTR and at the end of the stream, with the cell as gathered. */
  lemma ScanStructureEnd(s: seq<byte>, pos: nat, unit: real, acc: StructureAcc)
    requires pos <= |s|
    requires NextRecord(s, pos).EndOfStream? || (NextRecord(s, pos).Next? && NextRecord(s, pos).rec.recordType == ENDSTR)
    ensures ScanStructure(s, pos, unit, acc) == Ok(Parsed(acc, if NextRecord(s, pos).Next? then NextRecord(s, pos).next else pos))
  {
  }

  /** The library scan stops at ENDLIB and at the end of the stream. */
  lemma ScanLibEnd(s: seq<byte>, pos: nat, lib: LibAcc)
    requires pos <= |s|
    requires NextRecord(s, pos).EndOfStream? || (NextRecord(s, pos).Next? && NextRecord(s, pos).rec.recordType == ENDLIB)
    ensures ScanLib(s, pos, lib) == Ok(lib)
  {
  }

  /** Filing a cell in the map changes the snapshot at that cell's key only. */
  lemma SnapshotPut(cells: map<CellId, Cell>, c: Cell)
    ensures Snapshot(cells[c.id := c]) == Snapshot(cells)[c.id := c.Value()]
  {
  }

  /** The value of a cell `Cell::new("unnamed")` makes. */
  function UnnamedCell(id: CellId): CellValue
  {
    CellValue(id, "unnamed", [], [], [], false)
  }

  /**
   * The reader: the stream, a cursor into it, the database unit (in micrometres) and a counter
   * standing in for fresh UUIDs.
   */
  class GdsReader {
    const stream: seq<byte>
    var pos: nat
    var dbUnitInUm: real
    var nextId: nat

    /** A reader at the start of the stream with the default unit of 1 nm; ids are handed out from `firstId`. */
    constructor (stream: seq<byte>, firstId: nat)
      ensures this.stream == stream && pos == 0 && dbUnitInUm == 0.001 && nextId == firstId
    {
      this.stream := stream;
      pos := 0;
      dbUnitInUm := 0.001;
      nextId := firstId;
    }

    /** Reads the length, the type and the payload of one record. */
    method ReadRecord() returns (step: Step)
      requires pos <= |stream|
      modifies this`pos
      ensures step == NextRecord(stream, old(pos))
      ensures pos == if step.Next? then step.next else old(pos)
      ensures pos <= |stream|
    {
      if pos + 2 > |stream| {
        return EndOfStream;
      }
      var totalLen := BeValue(stream[pos..pos + 2]);
      if totalLen < 4 {
        return Failed(InvalidRecord(pos + 2));
      }
      if pos + 4 > |stream| {
        return Failed(Io);
      }
      var recordType := BeValue(stream[pos + 2..pos + 4]);
      var dataLen := totalLen - 4;
      if pos + 4 + dataLen > |stream| {
        return Failed(Io);
      }
      var data := stream[pos + 4..pos + 4 + dataLen];
      pos := pos + totalLen;
      return Next(GdsRecord(recordType, data), pos);
    }

    /** Checks that the stream opens with a HEADER record; the version it carries is only logged. */
    method ReadHeader() returns (r: Result<()>)
      requires pos <= |stream|
      modifies this`pos
      ensures pos <= |stream|
      ensures Agrees(r, pos, match HeaderAt(stream, old(pos)) case Err(e) => Err(e) case Ok(p) => Ok(Parsed((), p)))
    {
      var step := ReadRecord();
      if step.EndOfStream? {
        return Err(InvalidRecord(0));
      } else if step.Failed? {
        return Err(step.error);
      } else if step.rec.recordType != HEADER {
        return Err(UnexpectedRecord(step.rec.recordType, HEADER));
      }
      return Ok(());
    }

    /** Appends the XY payload's coordinate pairs, scaled by the database unit, one point at a time. */
    method PushXy(points: seq<Point>, data: seq<byte>) returns (r: seq<Point>)
      ensures r == points + XyPoints(data, dbUnitInUm)
    {
      var coords := I32s(data);
      var xy := XyPoints(data, dbUnitInUm);
      r := points;
      for k := 0 to |coords| / 2
        invariant r == points + xy[..k]
      {
        assert xy[k] == Point(Scaled(coords[2 * k], dbUnitInUm), Scaled(coords[2 * k + 1], dbUnitInUm));
        r := r + [Point(Scaled(coords[2 * k], dbUnitInUm), Scaled(coords[2 * k + 1], dbUnitInUm))];
        assert xy[..k + 1] == xy[..k] + [xy[k]];
      }
      assert xy[..|coords| / 2] == xy;
    }

    method ReadBoundary() returns (r: Result<Option<GeomPrimitive>>)
      requires pos <= |stream|
      modifies this`pos
      ensures pos <= |stream|
      ensures Agrees(r, pos, ElementAt(stream, old(pos), dbUnitInUm, BOUNDARY))
    {
      var layer: LayerId := 0;
      var gdsDatatype: int := 0;
      var points: seq<Point> := [];
      while true
        invariant pos <= |stream|
        invariant ScanElement(stream, pos, dbUnitInUm, ElementAcc(layer, points, 0.0), false)
               == ScanElement(stream, old(pos), dbUnitInUm, NoElement, false)
        decreases |stream| - pos
      {
        var step := ReadRecord();
        if step.EndOfStream? {
          break;
        } else if step.Failed? {
          return Err(step.error);
        }
        var rec := step.rec;
        if rec.recordType == LAYER {
          var vals := I16s(rec.data);
          if |vals| > 0 {
            layer := I16AsU32(vals[0]);
          }
        } else if rec.recordType == DATATYPE {
          var vals := I16s(rec.data);
          if |vals| > 0 {
            gdsDatatype := vals[0];
          }
        } else if rec.recordType == XY {
          points := PushXy(points, rec.data);
        } else if rec.recordType == ENDEL {
          break;
        }
      }
      return Ok(BoundaryGeometry(ElementAcc(layer, points, 0.0)));
    }

    method ReadPath() returns (r: Result<Option<GeomPrimitive>>)
      requires pos <= |stream|
      modifies this`pos
      ensures pos <= |stream|
      ensures Agrees(r, pos, ElementAt(stream, old(pos), dbUnitInUm, PATH))
    {
      var layer: LayerId := 0;
      var width: real := 0.0;
      var points: seq<Point> := [];
      while true
        invariant pos <= |stream|
        invariant ScanElement(stream, pos, dbUnitInUm, ElementAcc(layer, points, width), true)
               == ScanElement(stream, old(pos), dbUnitInUm, NoElement, true)
        decreases |stream| - pos
      {
        ghost var p0, acc0 := pos, ElementAcc(layer, points, width);
        var step := ReadRecord();
        if step.EndOfStream? || (step.Next? && step.rec.recordType == ENDEL) {
          ScanElementEnd(stream, p0, dbUnitInUm, acc0, true);
          break;
        } else if step.Failed? {
          return Err(step.error);
        }
        var rec := step.rec;
        ScanElementStep(stream, p0, dbUnitInUm, acc0, true);
        if rec.recordType == LAYER {
          var vals := I16s(rec.data);
          if |vals| > 0 {
            layer := I16AsU32(vals[0]);
          }
        } else if rec.recordType == WIDTH {
          var vals := I32s(rec.data);
          if |vals| > 0 {
            width := Scaled(vals[0], dbUnitInUm);
          }
          assert ElementAcc(layer, points, width) == Gather(acc0, rec, dbUnitInUm, true);
        } else if rec.recordType == XY {
          points := PushXy(points, rec.data);
        }
      }
      if |points| == 0 {
        return Ok(None);
      }
      return Ok(Some(PathGeom(Path(layer, points, width))));
    }

    method ReadBox() returns (r: Result<Option<GeomPrimitive>>)
      requires pos <= |stream|
      modifies this`pos
      ensures pos <= |stream|
      ensures Agrees(r, pos, ElementAt(stream, old(pos), dbUnitInUm, BOX))
    {
      var layer: LayerId := 0;
      var points: seq<Point> := [];
      while true
        invariant pos <= |stream|
        invariant ScanElement(stream, pos, dbUnitInUm, ElementAcc(layer, points, 0.0), false)
               == ScanElement(stream, old(pos), dbUnitInUm, NoElement, false)
        decreases |stream| - pos
      {
        var step := ReadRecord();
        if step.EndOfStream? {
          break;
        } else if step.Failed? {
          return Err(step.error);
        }
        var rec := step.rec;
        if rec.recordType == LAYER {
          var vals := I16s(rec.data);
          if |vals| > 0 {
            layer := I16AsU32(vals[0]);
          }
        } else if rec.recordType == XY {
          points := PushXy(points, rec.data);
        } else if rec.recordType == ENDEL {
          break;
        }
      }
      return Ok(BoxGeometry(ElementAcc(layer, points, 0.0)));
    }

    /** Reads an SREF; an instance gets the next fresh id only when it has a name. */
    method ReadSref() returns (r: Result<Option<CellInstance>>)
      requires pos <= |stream|
      modifies this`pos, this`nextId
      ensures pos <= |stream|
      ensures Agrees(r, pos, match ScanSref(stream, old(pos), dbUnitInUm, NoSref)
                             case Err(e) => Err(e)
                             case Ok(p) => Ok(Parsed(SrefInstance(p.value, old(nextId)), p.next)))
      ensures nextId == if r.Ok? && r.value.Some? then old(nextId) + 1 else old(nextId)
    {
      var cellName: string := "";
      var transform := DefaultTransform;
      var position := Point(0.0, 0.0);
      while true
        invariant pos <= |stream| && nextId == old(nextId)
        invariant ScanSref(stream, pos, dbUnitInUm, SrefAcc(cellName, transform, position))
               == ScanSref(stream, old(pos), dbUnitInUm, NoSref)
        decreases |stream| - pos
      {
        ghost var p0, acc0 := pos, SrefAcc(cellName, transform, position);
        var step := ReadRecord();
        if step.EndOfStream? || (step.Next? && step.rec.recordType == ENDEL) {
          ScanSrefEnd(stream, p0, dbUnitInUm, acc0);
          break;
        } else if step.Failed? {
          return Err(step.error);
        }
        var rec := step.rec;
        ScanSrefStep(stream, p0, dbUnitInUm, acc0);
        if rec.recordType == SNAME {
          cellName := AsString(rec.data);
        } else if rec.recordType == STRANS {
          var vals := I16s(rec.data);
          if |vals| > 0 {
            transform := transform.(mirrorX := vals[0] < 0);
          }
        } else if rec.recordType == MAG {
          var vals := Real8s(rec.data);
          if |vals| > 0 {
            transform := transform.(scale := vals[0]);
          }
        } else if rec.recordType == ANGLE {
          var vals := Real8s(rec.data);
          if |vals| > 0 {
            transform := transform.(rotation := vals[0]);
          }
        } else if rec.recordType == XY {
          var coords := I32s(rec.data);
          if |coords| >= 2 {
            position := Point(Scaled(coords[0], dbUnitInUm), Scaled(coords[1], dbUnitInUm));
          }
        }
      }
      if cellName == "" {
        return Ok(None);
      }
      transform := transform.(offset := position);
      var id := nextId;
      nextId := nextId + 1;
      return Ok(Some(CellInstance(id, NilUuid, cellName, transform)));
    }

    method SkipElement() returns (r: Result<()>)
      requires pos <= |stream|
      modifies this`pos
      ensures pos <= |stream|
      ensures Agrees(r, pos, match SkipToEndel(stream, old(pos)) case Err(e) => Err(e) case Ok(q) => Ok(Parsed((), q)))
    {
      while true
        invariant pos <= |stream|
        invariant SkipToEndel(stream, pos) == SkipToEndel(stream, old(pos))
        decreases |stream| - pos
      {
        var step := ReadRecord();
        if step.EndOfStream? {
          break;
        } else if step.Failed? {
          return Err(step.error);
        } else if step.rec.recordType == ENDEL {
          break;
        }
      }
      return Ok(());
    }
    /** What the reader and the database it fills hold, as the library scan sees them. */
    function Lib(db: LayoutDatabase): LibAcc
      reads this, db, db.cells.Values
    {
      LibAcc(db.name, dbUnitInUm, Snapshot(db.cells), db.topCell, nextId)
    }

    /** One record of a structure other than ENDSTR, with the records of the element it opens. */
    method ReadItem(cell: Cell, rec: GdsRecord) returns (r: Result<()>)
      requires pos <= |stream|
      modifies this`pos, this`nextId, cell
      ensures pos <= |stream|
      ensures match StructureItem(stream, old(pos), dbUnitInUm, StructureAcc(old(cell.Value()), old(nextId)), rec)
              case Err(e) => r == Err(e)
              case Ok(p) => (r == Ok(()) && pos == p.next && StructureAcc(cell.Value(), nextId) == p.value)
    {
      var t := rec.recordType;
      if t == STRNAME {
        cell.name := AsString(rec.data);
      } else if t == BOUNDARY || t == PATH || t == BOX {
        var g;
        if t == BOUNDARY {
          g := ReadBoundary();
        } else if t == PATH {
          g := ReadPath();
        } else {
          g := ReadBox();
        }
        if g.Err? {
          return Err(g.error);
        }
        if g.value.Some? {
          cell.AddGeometry(g.value.value);
        }
      } else if t == SREF {
        var inst := ReadSref();
        if inst.Err? {
          return Err(inst.error);
        }
        if inst.value.Some? {
          cell.AddInstance(inst.value.value);
        }
      } else if t == TEXT || t == NODE || t == AREF {
        var skipped := SkipElement();
        if skipped.Err? {
          return Err(skipped.error);
        }
      }
      return Ok(());
    }

    /** The records of a structure up to ENDSTR, read into `cell`. */
    method ReadCellBody(cell: Cell) returns (r: Result<()>)
      requires pos <= |stream|
      modifies this`pos, this`nextId, cell
      ensures pos <= |stream|
      ensures match ScanStructure(stream, old(pos), dbUnitInUm, StructureAcc(old(cell.Value()), old(nextId)))
              case Err(e) => r == Err(e)
              case Ok(p) => (r == Ok(()) && pos == p.next && StructureAcc(cell.Value(), nextId) == p.value)
    {
      while true
        invariant pos <= |stream|
        invariant ScanStructure(stream, pos, dbUnitInUm, StructureAcc(cell.Value(), nextId))
               == ScanStructure(stream, old(pos), dbUnitInUm, StructureAcc(old(cell.Value()), old(nextId)))
        decreases |stream| - pos
      {
        ghost var p0, acc0 := pos, StructureAcc(cell.Value(), nextId);
        var step := ReadRecord();
        if step.EndOfStream? || (step.Next? && step.rec.recordType == ENDSTR) {
          ScanStructureEnd(stream, p0, dbUnitInUm, acc0);
          break;
        } else if step.Failed? {
          return Err(step.error);
        }
        var item := ReadItem(cell, step.rec);
        if item.Err? {
          return Err(item.error);
        }
      }
      return Ok(());
    }

    /**
     * Reads one structure into a fresh cell and adds it to the database (it becomes the top cell if
     * there is none); an error leaves the database as it was.
     */
    method ReadStructure(db: LayoutDatabase) returns (r: Result<()>)
      requires pos <= |stream| && db.Valid()
      modifies this`pos, this`nextId, db`cells, db`topCell
      ensures pos <= |stream| && db.Valid()
      ensures match ScanStructure(stream, old(pos), dbUnitInUm, StructureAcc(UnnamedCell(old(nextId)), old(nextId) + 1))
              case Err(e) => r == Err(e) && db.cells == old(db.cells) && db.topCell == old(db.topCell)
              case Ok(p) => (r == Ok(()) && pos == p.next
                             && Lib(db) == AddCellValue(old(Lib(db)), p.value.cell).(nextId := p.value.nextId))
    {
      ghost var before := Lib(db);
      var cell := new Cell(nextId, "unnamed");
      nextId := nextId + 1;
      ghost var scan := ScanStructure(stream, pos, dbUnitInUm, StructureAcc(cell.Value(), nextId));
      assert scan == ScanStructure(stream, old(pos), dbUnitInUm, StructureAcc(UnnamedCell(old(nextId)), old(nextId) + 1));
      r := ReadCellBody(cell);
      assert Snapshot(db.cells) == before.cells;
      if r.Err? {
        return;
      }
      assert scan == Ok(Parsed(StructureAcc(cell.Value(), nextId), pos));
      ghost var unfiled := Lib(db);
      assert unfiled == before.(nextId := nextId);
      FileCell(db, cell);
    }

    /** `add_cell` as the library scan sees it. */
    method FileCell(db: LayoutDatabase, cell: Cell)
      requires db.Valid()
      modifies db`cells, db`topCell
      ensures db.Valid()
      ensures Lib(db) == AddCellValue(old(Lib(db)), cell.Value())
    {
      ghost var filed := Snapshot(db.cells)[cell.id := cell.Value()];
      SnapshotPut(db.cells, cell);
      var _ := db.AddCell(cell);
      assert Snapshot(db.cells) == filed;
    }

    /** LIBNAME renames the database. */
    method SetLibName(db: LayoutDatabase, name: string)
      modifies db`name
      ensures Lib(db) == old(Lib(db)).(name := name)
    {
      db.name := name;
    }

    /** UNITS with at least two values sets the unit to the first (user units) times 10^6. */
    method SetUnits(db: LayoutDatabase, units: seq<real>)
      modifies this`dbUnitInUm
      ensures Lib(db) == old(Lib(db)).(unit := if |units| >= 2 then units[0] * 1_000_000.0 else old(dbUnitInUm))
    {
      if |units| >= 2 {
        dbUnitInUm := units[0] * 1_000_000.0;
      }
    }

    /** One library record other than ENDLIB, with the structure it opens. */
    method ReadLibItem(db: LayoutDatabase, rec: GdsRecord) returns (r: Result<()>)
      requires pos <= |stream| && db.Valid()
      modifies this`pos, this`dbUnitInUm, this`nextId, db`name, db`cells, db`topCell
      ensures pos <= |stream| && db.Valid()
      ensures match LibItem(stream, old(pos), old(Lib(db)), rec)
              case Err(e) => r == Err(e)
              case Ok(p) => r == Ok(()) && pos == p.next && Lib(db) == p.value
    {
      var t := rec.recordType;
      if t == LIBNAME {
        SetLibName(db, AsString(rec.data));
        assert LibItem(stream, old(pos), old(Lib(db)), rec) == Ok(Parsed(Lib(db), pos));
      } else if t == UNITS {
        SetUnits(db, Real8s(rec.data));
        assert LibItem(stream, old(pos), old(Lib(db)), rec) == Ok(Parsed(Lib(db), pos));
      } else if t == BGNSTR {
        ghost var lib := Lib(db);
        ghost var body := ScanStructure(stream, pos, lib.unit, StructureAcc(UnnamedCell(lib.nextId), lib.nextId + 1));
        r := ReadStructure(db);
        if r.Err? {
          assert body == Err(r.error) && LibItem(stream, old(pos), lib, rec) == Err(r.error);
          return;
        }
        assert LibItem(stream, old(pos), lib, rec) == Ok(Parsed(Lib(db), pos));
      } else {
        assert LibItem(stream, old(pos), old(Lib(db)), rec) == Ok(Parsed(Lib(db), pos));
      }
      return Ok(());
    }

    /** Reads the library records: its name, its units and its structures, up to ENDLIB. */
    method ReadLib(db: LayoutDatabase) returns (r: Result<()>)
      requires pos <= |stream| && db.Valid()
      modifies this`pos, this`dbUnitInUm, this`nextId, db`name, db`cells, db`topCell
      ensures db.Valid()
      ensures match ScanLib(stream, old(pos), old(Lib(db)))
              case Err(e) => r == Err(e)
              case Ok(lib) => r == Ok(()) && Lib(db) == lib
    {
      while true
        invariant pos <= |stream| && db.Valid()
        invariant ScanLib(stream, pos, Lib(db)) == ScanLib(stream, old(pos), old(Lib(db)))
        decreases |stream| - pos
      {
        ghost var p0, lib0 := pos, Lib(db);
        var step := ReadRecord();
        if step.EndOfStream? || (step.Next? && step.rec.recordType == ENDLIB) {
          ScanLibEnd(stream, p0, lib0);
          break;
        } else if step.Failed? {
          return Err(step.error);
        }
        var item := ReadLibItem(db, step.rec);
        if item.Err? {
          return Err(item.error);
        }
      }
      return Ok(());
    }

    /** Reads the whole stream into a fresh database named "imported". */
    method Read() returns (r: Result<LayoutDatabase>)
      requires pos <= |stream|
      modifies this`pos, this`dbUnitInUm, this`nextId
      ensures match ReadLibrary(stream, old(pos), old(dbUnitInUm), old(nextId))
              case Err(e) => r == Err(e)
              case Ok(lib) => (r.Ok? && fresh(r.value) && r.value.id == old(nextId) && r.value.Valid()
                               && Lib(r.value) == lib)
    {
      var db := new LayoutDatabase(nextId, "imported");
      nextId := nextId + 1;
      var header := ReadHeader();
      if header.Err? {
        return Err(header.error);
      }
      var lib := ReadLib(db);
      if lib.Err? {
        return Err(lib.error);
      }
      return Ok(db);
    }
  }
}
