/**
 * Writing then reading: what `GdsReader` makes of the stream `GdsWriter` produces. The reader's
 * functions are stepped through the writer's records one record at a time.
 */
module GdsRoundTrip {
  import opened Common
  import opened Geometry
  import opened CellModel
  import opened GdsCodec
  import opened GdsReading
  import opened GdsWriting

  // ── Records held in a stream ──

  /** Every record is short enough for its length to fit the 16-bit length field. */
  predicate Fits(rs: seq<GdsRecord>)
  {
    forall i :: 0 <= i < |rs| ==> |rs[i].data| + 4 <= 0xFFFF
  }

  /** The stream holds the bytes of the records at `pos`. */
  predicate Holds(s: seq<byte>, pos: nat, rs: seq<GdsRecord>)
  {
    pos + |Bytes(rs)| <= |s| && s[pos..pos + |Bytes(rs)|] == Bytes(rs) && Fits(rs)
  }

  /** The next record read where records are held is the first of them; the rest are held after it. */
  lemma ReadHeld(s: seq<byte>, pos: nat, rs: seq<GdsRecord>)
    requires Holds(s, pos, rs) && |rs| > 0
    ensures pos <= |s|
    ensures NextRecord(s, pos) == Next(rs[0], pos + 4 + |rs[0].data|)
    ensures Holds(s, pos + 4 + |rs[0].data|, rs[1..])
  {
    var head, tail := RecordBytes(rs[0]), Bytes(rs[1..]);
    var n := |head|;
    var m := |Bytes(rs)|;
    assert Bytes(rs) == head + tail;
    assert s[pos..pos + n] == s[pos..pos + m][..n] == (head + tail)[..n] == head;
    assert s[pos + n..pos + n + |tail|] == s[pos..pos + m][n..] == (head + tail)[n..] == tail;
    assert forall i :: 0 <= i < |rs| - 1 ==> rs[1..][i] == rs[i + 1];
    assert s == s[..pos] + head + s[pos + n..];
    ReadWrittenRecord(s[..pos], rs[0], s[pos + n..]);
  }

  /** Where reading the records `rs` one after another from `pos` ends, if that is what is read there. */
  function ReadEnd(s: seq<byte>, pos: nat, rs: seq<GdsRecord>): Option<nat>
    decreases |rs|
  {
    if |rs| == 0 then (if pos <= |s| then Some(pos) else None)
    else if pos > |s| then None
    else match NextRecord(s, pos)
      case Next(r, next) => if r == rs[0] then ReadEnd(s, next, rs[1..]) else None
      case _ => None
  }

  /** Held records are read back one by one, and reading them ends where their bytes end. */
  lemma {:induction false} HoldsReads(s: seq<byte>, pos: nat, rs: seq<GdsRecord>)
    requires Holds(s, pos, rs)
    ensures ReadEnd(s, pos, rs) == Some(pos + |Bytes(rs)|)
    decreases |rs|
  {
    if |rs| > 0 {
      ReadHeld(s, pos, rs);
      HoldsReads(s, pos + 4 + |rs[0].data|, rs[1..]);
      assert Bytes(rs) == RecordBytes(rs[0]) + Bytes(rs[1..]);
    }
  }

  /** The first record read, and where the rest are read from. */
  lemma ReadFirst(s: seq<byte>, pos: nat, rs: seq<GdsRecord>, end: nat)
    requires |rs| > 0 && ReadEnd(s, pos, rs) == Some(end)
    ensures pos <= |s| && NextRecord(s, pos) == Next(rs[0], pos + 4 + |rs[0].data|)
    ensures ReadEnd(s, pos + 4 + |rs[0].data|, rs[1..]) == Some(end)
  {
  }

  /** Reading records followed by more reads their first one, then the rest followed by the same. */
  lemma ReadHead(s: seq<byte>, pos: nat, rs: seq<GdsRecord>, tail: seq<GdsRecord>, next: nat, end: nat)
    requires |rs| > 0 && ReadEnd(s, pos, rs + tail) == Some(end) && next == pos + 4 + |rs[0].data|
    ensures next <= |s| && NextRecord(s, pos) == Next(rs[0], next)
    ensures ReadEnd(s, next, rs[1..] + tail) == Some(end)
  {
    var all := rs + tail;
    assert all[0] == rs[0] && all[1..] == rs[1..] + tail;
    ReadFirst(s, pos, all, end);
  }

  /** Reading records goes on after the first one when that one is read. */
  lemma ReadStep(s: seq<byte>, pos: nat, rs: seq<GdsRecord>)
    requires |rs| > 0 && pos <= |s| && NextRecord(s, pos).Next? && NextRecord(s, pos).rec == rs[0]
    ensures ReadEnd(s, pos, rs) == ReadEnd(s, NextRecord(s, pos).next, rs[1..])
  {
  }

  /** Reading a record without data followed by others. */
  lemma ReadEmpty(s: seq<byte>, pos: nat, t: u16, rs: seq<GdsRecord>, end: nat)
    requires ReadEnd(s, pos, [Empty(t)] + rs) == Some(end)
    ensures pos + 4 <= |s| && NextRecord(s, pos) == Next(Empty(t), pos + 4)
    ensures ReadEnd(s, pos + 4, rs) == Some(end)
  {
    var all := [Empty(t)] + rs;
    assert all[0] == Empty(t) && all[1..] == rs;
    ReadFirst(s, pos, all, end);
  }

  /** Records read one list after another. */
  lemma {:induction false} ReadSplit(s: seq<byte>, pos: nat, a: seq<GdsRecord>, b: seq<GdsRecord>, end: nat)
    requires ReadEnd(s, pos, a + b) == Some(end)
    ensures ReadEnd(s, pos, a).Some? && ReadEnd(s, ReadEnd(s, pos, a).value, b) == Some(end)
    decreases |a|
  {
    if |a| == 0 {
      assert a + b == b;
    } else {
      var ab, next := a + b, pos + 4 + |a[0].data|;
      assert ab[0] == a[0] && ab[1..] == a[1..] + b;
      ReadFirst(s, pos, ab, end);
      ReadSplit(s, next, a[1..], b, end);
      ReadStep(s, pos, a);
    }
  }

  // ── Elements ──

  /** Records that do not end an element. */
  predicate NoEndel(recs: seq<GdsRecord>)
  {
    forall i :: 0 <= i < |recs| ==> recs[i].recordType != ENDEL
  }

  /** The element's records gathered one after another. */
  function GatherAll(acc: ElementAcc, recs: seq<GdsRecord>, unit: real, isPath: bool): ElementAcc
    decreases |recs|
  {
    if |recs| == 0 then acc else GatherAll(Gather(acc, recs[0], unit, isPath), recs[1..], unit, isPath)
  }

  /** An element scan over records read up to ENDEL gathers exactly those records. */
  lemma {:induction false} ScanElementReads(s: seq<byte>, pos: nat, unit: real, acc: ElementAcc, isPath: bool, recs: seq<GdsRecord>, end: nat)
    requires ReadEnd(s, pos, recs + [Empty(ENDEL)]) == Some(end) && NoEndel(recs)
    ensures pos <= |s|
    ensures ScanElement(s, pos, unit, acc, isPath) == Ok(Parsed(GatherAll(acc, recs, unit, isPath), end))
    decreases |recs|
  {
    if |recs| == 0 {
      var all := recs + [Empty(ENDEL)];
      assert all[0] == Empty(ENDEL) && all[1..] == [];
      ReadFirst(s, pos, all, end);
    } else {
      var next, gathered := pos + 4 + |recs[0].data|, Gather(acc, recs[0], unit, isPath);
      ReadHead(s, pos, recs, [Empty(ENDEL)], next, end);
      ScanElementReads(s, next, unit, gathered, isPath, recs[1..], end);
      ElementReadsStep(s, pos, unit, acc, isPath, recs[0], next, Parsed(GatherAll(gathered, recs[1..], unit, isPath), end));
    }
  }

  lemma ElementReadsStep(s: seq<byte>, pos: nat, unit: real, acc: ElementAcc, isPath: bool, rec: GdsRecord, next: nat,
                         rest: Parsed<ElementAcc>)
    requires pos <= next <= |s| && NextRecord(s, pos) == Next(rec, next) && rec.recordType != ENDEL
    requires ScanElement(s, next, unit, Gather(acc, rec, unit, isPath), isPath) == Ok(rest)
    ensures ScanElement(s, pos, unit, acc, isPath) == Ok(rest)
  {
    ScanElementStep(s, pos, unit, acc, isPath);
  }

  /** The type of the record that opens a written geometry: PATH for a path, BOUNDARY otherwise. */
  function ElementKind(g: GeomPrimitive): u16
  {
    if g.PathGeom? then PATH else BOUNDARY
  }

  /** The XY coordinates written for a geometry. */
  function ElementCoords(g: GeomPrimitive): seq<i32>
  {
    match g
    case RectGeom(r) => RectCoords(r)
    case PolygonGeom(p) => PolygonCoords(p)
    case PathGeom(p) => PointCoords(p.points)
    case ViaGeom(v) => RectCoords(ViaRect(v))
  }

  /** The records written for a geometry between its opening record and ENDEL. */
  function ElementBody(g: GeomPrimitive): seq<GdsRecord>
  {
    var layer := [I16Record(LAYER, [U32AsI16(g.LayerId())]), I16Record(DATATYPE, [0])];
    var width := if g.PathGeom? then [I32Record(WIDTH, [Coord(g.path.width)])] else [];
    layer + width + [I32Record(XY, ElementCoords(g))]
  }

  lemma ElementBodyNoEndel(g: GeomPrimitive)
    ensures NoEndel(ElementBody(g))
  {
  }

  /** A written geometry is its opening record, its body and ENDEL. */
  lemma GeometryRecordsShape(g: GeomPrimitive)
    ensures GeometryRecords(g) == [Empty(ElementKind(g))] + (ElementBody(g) + [Empty(ENDEL)])
  {
    var layerRec, typeRec := I16Record(LAYER, [U32AsI16(g.LayerId())]), I16Record(DATATYPE, [0]);
    var xyRec := I32Record(XY, ElementCoords(g));
    if g.PathGeom? {
      PathShape(Empty(PATH), layerRec, typeRec, I32Record(WIDTH, [Coord(g.path.width)]), xyRec, Empty(ENDEL));
    } else {
      assert g.ViaGeom? ==> ViaRect(g.via).layerId == g.LayerId();
      BoundaryShape(Empty(BOUNDARY), layerRec, typeRec, xyRec, Empty(ENDEL));
    }
  }

  lemma BoundaryShape(kind: GdsRecord, layer: GdsRecord, dataType: GdsRecord, xy: GdsRecord, end: GdsRecord)
    ensures [kind, layer, dataType, xy, end] == [kind] + (([layer, dataType] + [] + [xy]) + [end])
  {
  }

  lemma PathShape(kind: GdsRecord, layer: GdsRecord, dataType: GdsRecord, width: GdsRecord, xy: GdsRecord, end: GdsRecord)
    ensures [kind, layer, dataType, width, xy, end] == [kind] + (([layer, dataType] + [width] + [xy]) + [end])
  {
  }

  /** The geometry the reader makes of a written one, in database units `unit`. */
  function ElementBack(g: GeomPrimitive, unit: real): Option<GeomPrimitive>
  {
    var acc := GatheredElement(g, unit);
    if g.PathGeom? then PathGeometry(acc) else BoundaryGeometry(acc)
  }

  /** The element state the reader builds from a written geometry: its layer as a 16-bit value, its XY, its width. */
  function GatheredElement(g: GeomPrimitive, unit: real): ElementAcc
  {
    ElementAcc(I16AsU32(U32AsI16(g.LayerId())), XyPoints(I32sBytes(ElementCoords(g)), unit),
               if g.PathGeom? then Scaled(Coord(g.path.width), unit) else 0.0)
  }

  lemma GatherAll3(acc: ElementAcc, a: GdsRecord, b: GdsRecord, c: GdsRecord, unit: real, isPath: bool)
    ensures GatherAll(acc, [a, b, c], unit, isPath) == Gather(Gather(Gather(acc, a, unit, isPath), b, unit, isPath), c, unit, isPath)
  {
    var a1 := Gather(acc, a, unit, isPath);
    var a2 := Gather(a1, b, unit, isPath);
    assert [a, b, c][1..] == [b, c] && [b, c][1..] == [c] && [c][1..] == [];
    assert GatherAll(a2, [c], unit, isPath) == GatherAll(Gather(a2, c, unit, isPath), [], unit, isPath);
    assert GatherAll(a1, [b, c], unit, isPath) == GatherAll(a2, [c], unit, isPath);
  }

  lemma GatherAll4(acc: ElementAcc, a: GdsRecord, b: GdsRecord, c: GdsRecord, d: GdsRecord, unit: real, isPath: bool)
    ensures GatherAll(acc, [a, b, c, d], unit, isPath) == GatherAll(Gather(acc, a, unit, isPath), [b, c, d], unit, isPath)
  {
    assert [a, b, c, d][1..] == [b, c, d];
  }

  /** A written LAYER record reads back as its 16-bit value widened to 32 bits. */
  lemma LayerRecordBack(v: i16, layer: LayerId)
    ensures LayerOf(I16Record(LAYER, [v]), layer) == I16AsU32(v)
  {
    I16sRoundTrip([v], []);
    assert I16sBytes([v]) + [] == I16sBytes([v]);
  }

  /** A written WIDTH record reads back as its value in database units. */
  lemma WidthRecordBack(v: i32)
    ensures I32s(I32sBytes([v])) == [v]
  {
    I32sRoundTrip([v], []);
    assert I32sBytes([v]) + [] == I32sBytes([v]);
  }

  /** What the reader gathers from a written geometry: its layer as a 16-bit value, its XY, its width. */
  lemma ElementGathered(g: GeomPrimitive, unit: real)
    ensures GatherAll(NoElement, ElementBody(g), unit, g.PathGeom?) == GatheredElement(g, unit)
  {
    var isPath := g.PathGeom?;
    var layerRec, typeRec := I16Record(LAYER, [U32AsI16(g.LayerId())]), I16Record(DATATYPE, [0]);
    var xyRec := I32Record(XY, ElementCoords(g));
    var pts := XyPoints(I32sBytes(ElementCoords(g)), unit);
    LayerRecordBack(U32AsI16(g.LayerId()), 0);
    var a1 := Gather(NoElement, layerRec, unit, isPath);
    assert a1 == NoElement.(layer := I16AsU32(U32AsI16(g.LayerId())));
    var a2 := Gather(a1, typeRec, unit, isPath);
    assert a2 == a1;
    assert [] + pts == pts;
    if isPath {
      var widthRec := I32Record(WIDTH, [Coord(g.path.width)]);
      assert ElementBody(g) == [layerRec, typeRec, widthRec, xyRec];
      GatherAll4(NoElement, layerRec, typeRec, widthRec, xyRec, unit, isPath);
      GatherAll3(a1, typeRec, widthRec, xyRec, unit, isPath);
      WidthRecordBack(Coord(g.path.width));
      assert Gather(a2, widthRec, unit, isPath) == a1.(width := Scaled(Coord(g.path.width), unit));
    } else {
      assert ElementBody(g) == [layerRec, typeRec, xyRec];
      GatherAll3(NoElement, layerRec, typeRec, xyRec, unit, isPath);
    }
  }

  /** The XY of a written geometry reads back as one point per coordinate pair. */
  lemma ElementPointCount(g: GeomPrimitive, unit: real)
    ensures |XyPoints(I32sBytes(ElementCoords(g)), unit)| == |ElementCoords(g)| / 2
    ensures |ElementCoords(g)| == 0 <==> g.BoundingBox().None?
  {
  }

  /** A written geometry comes back exactly when it has a bounding box: an empty polygon or path is lost. */
  lemma ElementBackPresent(g: GeomPrimitive, unit: real)
    ensures ElementBack(g, unit).Some? <==> g.BoundingBox().Some?
  {
    ElementGathered(g, unit);
    ElementPointCount(g, unit);
  }

  /**
   * A geometry that comes back is on its layer as a 16-bit value read back with sign extension;
   * so a layer below 0x8000 is kept.
   */
  lemma ElementBackLayer(g: GeomPrimitive, unit: real)
    ensures ElementBack(g, unit).Some? ==> ElementBack(g, unit).value.LayerId() == I16AsU32(U32AsI16(g.LayerId()))
    ensures ElementBack(g, unit).Some? && g.LayerId() < 0x8000 ==> ElementBack(g, unit).value.LayerId() == g.LayerId()
  {
    ElementGathered(g, unit);
  }

  /** A rectangle (and a via) goes out as a closed five-point XY and comes back as a geometry on its layer. */
  lemma RectBack(r: Rect, unit: real)
    ensures |ElementCoords(RectGeom(r))| == 10
    ensures ElementBack(RectGeom(r), unit).Some?
    ensures r.layerId < 0x8000 ==> ElementBack(RectGeom(r), unit).value.LayerId() == r.layerId
  {
    ElementBackPresent(RectGeom(r), unit);
    ElementBackLayer(RectGeom(r), unit);
  }

  /** The element read after the opening record of a written geometry. */
  lemma ElementAtReads(s: seq<byte>, pos: nat, unit: real, g: GeomPrimitive, end: nat)
    requires ReadEnd(s, pos, ElementBody(g) + [Empty(ENDEL)]) == Some(end)
    ensures pos <= |s|
    ensures ElementAt(s, pos, unit, ElementKind(g)) == Ok(Parsed(ElementBack(g, unit), end))
  {
    ElementBodyNoEndel(g);
    ScanElementReads(s, pos, unit, NoElement, g.PathGeom?, ElementBody(g), end);
    ElementGathered(g, unit);
    ElementAtOk(s, pos, unit, ElementKind(g), GatheredElement(g, unit), end);
  }

  /** An element whose records scan to `acc` becomes the geometry its kind makes of `acc`. */
  lemma ElementAtOk(s: seq<byte>, pos: nat, unit: real, kind: u16, acc: ElementAcc, next: nat)
    requires pos <= |s| && ScanElement(s, pos, unit, NoElement, kind == PATH) == Ok(Parsed(acc, next))
    ensures ElementAt(s, pos, unit, kind)
         == Ok(Parsed(if kind == PATH then PathGeometry(acc) else if kind == BOX then BoxGeometry(acc) else BoundaryGeometry(acc), next))
  {
  }

  // ── Structures ──

  /** A structure scan goes on from where the item the next record opens ends. */
  lemma ScanStructureStep(s: seq<byte>, pos: nat, unit: real, acc: StructureAcc)
    requires pos <= |s| && NextRecord(s, pos).Next? && NextRecord(s, pos).rec.recordType != ENDSTR
    requires StructureItem(s, NextRecord(s, pos).next, unit, acc, NextRecord(s, pos).rec).Ok?
    ensures ScanStructure(s, pos, unit, acc)
         == ScanStructure(s, StructureItem(s, NextRecord(s, pos).next, unit, acc, NextRecord(s, pos).rec).value.next, unit,
                          StructureItem(s, NextRecord(s, pos).next, unit, acc, NextRecord(s, pos).rec).value.value)
  {
  }

  /** The geometries the reader adds to a cell for some written ones, in order; lost ones add nothing. */
  function GeometriesBack(cell: CellValue, gs: seq<GeomPrimitive>, unit: real): CellValue
    decreases |gs|
  {
    if |gs| == 0 then cell else WithGeometry(GeometriesBack(cell, gs[..|gs| - 1], unit), ElementBack(gs[|gs| - 1], unit))
  }

  /** One written geometry, read inside a structure. */
  lemma ScanGeometryReads(s: seq<byte>, pos: nat, unit: real, acc: StructureAcc, g: GeomPrimitive, end: nat)
    requires ReadEnd(s, pos, GeometryRecords(g)) == Some(end)
    ensures pos <= end <= |s|
    ensures ScanStructure(s, pos, unit, acc) == ScanStructure(s, end, unit, acc.(cell := WithGeometry(acc.cell, ElementBack(g, unit))))
  {
    var kind, body := ElementKind(g), ElementBody(g) + [Empty(ENDEL)];
    GeometryRecordsShape(g);
    ReadEmpty(s, pos, kind, body, end);
    ElementAtReads(s, pos + 4, unit, g, end);
    ScanElementItem(s, pos, unit, acc, kind, ElementBack(g, unit), end);
  }

  /** An element opened at `pos` adds what `ElementAt` makes of it to the cell. */
  lemma ScanElementItem(s: seq<byte>, pos: nat, unit: real, acc: StructureAcc, kind: u16, back: Option<GeomPrimitive>, next: nat)
    requires pos + 4 <= |s| && NextRecord(s, pos) == Next(Empty(kind), pos + 4)
    requires kind == BOUNDARY || kind == PATH
    requires ElementAt(s, pos + 4, unit, kind) == Ok(Parsed(back, next))
    ensures ScanStructure(s, pos, unit, acc) == ScanStructure(s, next, unit, acc.(cell := WithGeometry(acc.cell, back)))
  {
    ScanStructureStep(s, pos, unit, acc);
  }

  /** Written geometries, read inside a structure, one after another. */
  lemma {:induction false} ScanGeometriesReads(s: seq<byte>, pos: nat, unit: real, acc: StructureAcc, gs: seq<GeomPrimitive>, end: nat)
    requires ReadEnd(s, pos, AllGeometryRecords(gs)) == Some(end)
    ensures pos <= end <= |s|
    ensures ScanStructure(s, pos, unit, acc) == ScanStructure(s, end, unit, acc.(cell := GeometriesBack(acc.cell, gs, unit)))
    decreases |gs|
  {
    if |gs| == 0 {
      assert AllGeometryRecords(gs) == [];
    } else {
      var init, last := gs[..|gs| - 1], gs[|gs| - 1];
      ReadSplit(s, pos, AllGeometryRecords(init), GeometryRecords(last), end);
      var mid := ReadEnd(s, pos, AllGeometryRecords(init)).value;
      ScanGeometriesReads(s, pos, unit, acc, init, mid);
      ScanGeometryReads(s, mid, unit, acc.(cell := GeometriesBack(acc.cell, init, unit)), last, end);
    }
  }

  // ── Structure references ──

  /** The records written for an instance between SREF and ENDEL. */
  function SrefBody(inst: CellInstance, normalise: real -> Excess64): seq<GdsRecord>
  {
    var t := inst.transform;
    [StringRecord(SNAME, inst.instanceName)] + StransRecords(t) + MagRecords(t, normalise) + AngleRecords(t, normalise)
      + [I32Record(XY, [Coord(t.offset.x), Coord(t.offset.y)])]
  }

  lemma SrefBodyNoEndel(inst: CellInstance, normalise: real -> Excess64)
    ensures NoEndel(SrefBody(inst, normalise))
  {
  }

  /** A written instance is SREF, its body and ENDEL. */
  lemma SrefRecordsShape(inst: CellInstance, normalise: real -> Excess64)
    ensures SrefRecords(inst, normalise) == [Empty(SREF)] + (SrefBody(inst, normalise) + [Empty(ENDEL)])
  {
    var t := inst.transform;
    SrefShape(Empty(SREF), StringRecord(SNAME, inst.instanceName), StransRecords(t), MagRecords(t, normalise),
      AngleRecords(t, normalise), I32Record(XY, [Coord(t.offset.x), Coord(t.offset.y)]), Empty(ENDEL));
  }

  lemma SrefShape(kind: GdsRecord, name: GdsRecord, a: seq<GdsRecord>, b: seq<GdsRecord>, c: seq<GdsRecord>,
                  xy: GdsRecord, end: GdsRecord)
    ensures [kind, name] + a + b + c + [xy, end] == [kind] + (([name] + a + b + c + [xy]) + [end])
  {
    assert [kind, name] == [kind] + [name];
    assert [xy, end] == [xy] + [end];
  }

  /** The SREF's records applied one after another. */
  function GatherSrefAll(acc: SrefAcc, recs: seq<GdsRecord>, unit: real): SrefAcc
    decreases |recs|
  {
    if |recs| == 0 then acc else GatherSrefAll(GatherSref(acc, recs[0], unit), recs[1..], unit)
  }

  /** An SREF scan over records read up to ENDEL applies exactly those records. */
  lemma {:induction false} ScanSrefReads(s: seq<byte>, pos: nat, unit: real, acc: SrefAcc, recs: seq<GdsRecord>, end: nat)
    requires ReadEnd(s, pos, recs + [Empty(ENDEL)]) == Some(end) && NoEndel(recs)
    ensures pos <= |s|
    ensures ScanSref(s, pos, unit, acc) == Ok(Parsed(GatherSrefAll(acc, recs, unit), end))
    decreases |recs|
  {
    if |recs| == 0 {
      var all := recs + [Empty(ENDEL)];
      assert all[0] == Empty(ENDEL) && all[1..] == [];
      ReadFirst(s, pos, all, end);
    } else {
      var next, gathered := pos + 4 + |recs[0].data|, GatherSref(acc, recs[0], unit);
      ReadHead(s, pos, recs, [Empty(ENDEL)], next, end);
      ScanSrefReads(s, next, unit, gathered, recs[1..], end);
      SrefReadsStep(s, pos, unit, acc, recs[0], next, Parsed(GatherSrefAll(gathered, recs[1..], unit), end));
    }
  }

  lemma SrefReadsStep(s: seq<byte>, pos: nat, unit: real, acc: SrefAcc, rec: GdsRecord, next: nat, rest: Parsed<SrefAcc>)
    requires pos <= next <= |s| && NextRecord(s, pos) == Next(rec, next) && rec.recordType != ENDEL
    requires ScanSref(s, next, unit, GatherSref(acc, rec, unit)) == Ok(rest)
    ensures ScanSref(s, pos, unit, acc) == Ok(rest)
  {
    ScanSrefStep(s, pos, unit, acc);
  }

  /** What the reader makes of a written instance's records, in database units `unit`. */
  function SrefBack(inst: CellInstance, unit: real, normalise: real -> Excess64): SrefAcc
  {
    SrefAcc(AsString(PaddedStringBytes(inst.instanceName)), TransformBack(inst.transform, normalise), OffsetBack(inst.transform, unit))
  }

  /** An SREF opened at `pos` adds the instance its records make, with the next fresh id. */
  lemma ScanSrefItem(s: seq<byte>, pos: nat, unit: real, acc: StructureAcc, back: SrefAcc, next: nat)
    requires pos + 4 <= |s| && NextRecord(s, pos) == Next(Empty(SREF), pos + 4)
    requires ScanSref(s, pos + 4, unit, NoSref) == Ok(Parsed(back, next))
    ensures ScanStructure(s, pos, unit, acc) == ScanStructure(s, next, unit, WithInstance(acc, SrefInstance(back, acc.nextId)))
  {
    ScanStructureStep(s, pos, unit, acc);
  }

  /** One written instance, read inside a structure. */
  lemma ScanInstanceReads(s: seq<byte>, pos: nat, unit: real, acc: StructureAcc, inst: CellInstance, normalise: real -> Excess64, end: nat)
    requires ReadEnd(s, pos, SrefRecords(inst, normalise)) == Some(end)
    ensures pos <= end <= |s|
    ensures ScanStructure(s, pos, unit, acc)
         == ScanStructure(s, end, unit, WithInstance(acc, SrefInstance(SrefBack(inst, unit, normalise), acc.nextId)))
  {
    var body := SrefBody(inst, normalise);
    SrefRecordsShape(inst, normalise);
    ReadEmpty(s, pos, SREF, body + [Empty(ENDEL)], end);
    SrefBodyNoEndel(inst, normalise);
    ScanSrefReads(s, pos + 4, unit, NoSref, body, end);
    SrefGathered(inst, unit, normalise);
    ScanSrefItem(s, pos, unit, acc, SrefBack(inst, unit, normalise), end);
  }

  lemma {:induction false} GatherSrefAllAppend(acc: SrefAcc, a: seq<GdsRecord>, b: seq<GdsRecord>, unit: real)
    ensures GatherSrefAll(acc, a + b, unit) == GatherSrefAll(GatherSrefAll(acc, a, unit), b, unit)
    decreases |a|
  {
    if |a| == 0 {
      assert a + b == b;
    } else {
      assert (a + b)[0] == a[0] && (a + b)[1..] == a[1..] + b;
      GatherSrefAllAppend(GatherSref(acc, a[0], unit), a[1..], b, unit);
    }
  }

  lemma GatherSrefOne(acc: SrefAcc, r: GdsRecord, unit: real)
    ensures GatherSrefAll(acc, [r], unit) == GatherSref(acc, r, unit)
  {
    assert [r][1..] == [];
  }

  /** One real written and read back. */
  lemma Real8sOne(v: real, normalise: real -> Excess64)
    ensures Real8s(Real8sBytes([v], normalise)) == [Real8Value(RealBytes(v, normalise))]
  {
    var d := Real8sBytes([v], normalise);
    assert d == RealBytes(v, normalise) + [];
    assert d[..8] == RealBytes(v, normalise) && d[8..] == [];
  }

  /** STRANS carries the mirror bit: -0x8000 reads back negative and 0 does not. */
  lemma StransBack(acc: SrefAcc, t: Transform, unit: real)
    requires !acc.transform.mirrorX
    ensures GatherSrefAll(acc, StransRecords(t), unit) == acc.(transform := acc.transform.(mirrorX := t.mirrorX))
  {
    if t.mirrorX || t.rotation != 0.0 || t.scale != 1.0 {
      var v: i16 := if t.mirrorX then -0x8000 else 0;
      GatherSrefOne(acc, I16Record(STRANS, [v]), unit);
      I16sRoundTrip([v], []);
      assert I16sBytes([v]) + [] == I16sBytes([v]);
    }
  }

  /** MAG, written only when the scale is not 1, reads back as the written real. */
  lemma MagBack(acc: SrefAcc, t: Transform, normalise: real -> Excess64, unit: real)
    ensures GatherSrefAll(acc, MagRecords(t, normalise), unit)
         == if t.scale != 1.0 then acc.(transform := acc.transform.(scale := Real8Value(RealBytes(t.scale, normalise)))) else acc
  {
    if t.scale != 1.0 {
      GatherSrefOne(acc, Real8Record(MAG, [t.scale], normalise), unit);
      Real8sOne(t.scale, normalise);
    }
  }

  /** ANGLE, written only when the rotation is not 0, reads back as the written real. */
  lemma AngleBack(acc: SrefAcc, t: Transform, normalise: real -> Excess64, unit: real)
    ensures GatherSrefAll(acc, AngleRecords(t, normalise), unit)
         == if t.rotation != 0.0 then acc.(transform := acc.transform.(rotation := Real8Value(RealBytes(t.rotation, normalise)))) else acc
  {
    if t.rotation != 0.0 {
      GatherSrefOne(acc, Real8Record(ANGLE, [t.rotation], normalise), unit);
      Real8sOne(t.rotation, normalise);
    }
  }

  /** The XY pair reads back as the position, in database units `unit`. */
  lemma PositionBack(acc: SrefAcc, x: i32, y: i32, unit: real)
    ensures GatherSrefAll(acc, [I32Record(XY, [x, y])], unit) == acc.(position := Point(Scaled(x, unit), Scaled(y, unit)))
  {
    GatherSrefOne(acc, I32Record(XY, [x, y]), unit);
    I32sRoundTrip([x, y], []);
    assert I32sBytes([x, y]) + [] == I32sBytes([x, y]);
  }

  /** The placement an instance's records read back as, before the position is applied. */
  function TransformBack(t: Transform, normalise: real -> Excess64): Transform
  {
    Transform(Point(0.0, 0.0),
      if t.rotation != 0.0 then Real8Value(RealBytes(t.rotation, normalise)) else 0.0,
      t.mirrorX,
      if t.scale != 1.0 then Real8Value(RealBytes(t.scale, normalise)) else 1.0)
  }

  /** The offset an instance's XY reads back as, in database units `unit`. */
  function OffsetBack(t: Transform, unit: real): Point
  {
    Point(Scaled(Coord(t.offset.x), unit), Scaled(Coord(t.offset.y), unit))
  }

  /** What the reader gathers from a written instance: the name as read, the placement, the offset in database units. */
  lemma SrefGathered(inst: CellInstance, unit: real, normalise: real -> Excess64)
    ensures GatherSrefAll(NoSref, SrefBody(inst, normalise), unit) == SrefBack(inst, unit, normalise)
  {
    var t := inst.transform;
    var name := [StringRecord(SNAME, inst.instanceName)];
    var strans, mag, angle := StransRecords(t), MagRecords(t, normalise), AngleRecords(t, normalise);
    var xy := [I32Record(XY, [Coord(t.offset.x), Coord(t.offset.y)])];
    GatherSrefAllAppend(NoSref, name + strans + mag + angle, xy, unit);
    GatherSrefAllAppend(NoSref, name + strans + mag, angle, unit);
    GatherSrefAllAppend(NoSref, name + strans, mag, unit);
    GatherSrefAllAppend(NoSref, name, strans, unit);
    GatherSrefOne(NoSref, name[0], unit);
    var a1 := NoSref.(name := AsString(PaddedStringBytes(inst.instanceName)));
    StransBack(a1, t, unit);
    var a2 := a1.(transform := a1.transform.(mirrorX := t.mirrorX));
    MagBack(a2, t, normalise, unit);
    var a3 := GatherSrefAll(a2, mag, unit);
    AngleBack(a3, t, normalise, unit);
    PositionBack(GatherSrefAll(a3, angle, unit), Coord(t.offset.x), Coord(t.offset.y), unit);
  }

  /**
   * As the program writes reals, a MAG and an ANGLE whose magnitudes have exact forms read back
   * sixteen times larger; the mirror flag is kept and the offset is read separately.
   */
  lemma TransformBackSource(t: Transform, es: int, ks: nat, er: int, kr: nat)
    requires t.scale != 1.0 && t.scale != 0.0 ==> HasForm(if t.scale < 0.0 then -t.scale else t.scale, es, ks) && -65 <= es < 63
    requires t.rotation != 0.0 ==> HasForm(if t.rotation < 0.0 then -t.rotation else t.rotation, er, kr) && -65 <= er < 63
    ensures TransformBack(t, SourceNormalise)
         == Transform(Point(0.0, 0.0), 16.0 * t.rotation, t.mirrorX, if t.scale != 1.0 then 16.0 * t.scale else 1.0)
  {
    Real8ZeroIffNoMantissa(ZeroReal8);
    if t.scale != 1.0 && t.scale != 0.0 {
      SourceReadsSixteenfold(t.scale, es, ks);
    }
    if t.rotation != 0.0 {
      SourceReadsSixteenfold(t.rotation, er, kr);
    }
  }

  /** With the corrected encoder, a MAG and an ANGLE whose magnitudes have exact forms read back as written. */
  lemma TransformBackCorrected(t: Transform, es: int, ks: nat, er: int, kr: nat)
    requires t.scale != 0.0 ==> HasForm(if t.scale < 0.0 then -t.scale else t.scale, es, ks) && -64 <= es < 64
    requires t.rotation != 0.0 ==> HasForm(if t.rotation < 0.0 then -t.rotation else t.rotation, er, kr) && -64 <= er < 64
    ensures TransformBack(t, CorrectedNormalise) == t.(offset := Point(0.0, 0.0))
  {
    CorrectedReal8RoundTrip(t.scale, es, ks);
    CorrectedReal8RoundTrip(t.rotation, er, kr);
  }

  /**
   * A written instance comes back exactly when its name is not empty; it then keeps its name (an
   * ASCII name without a trailing NUL), takes the given fresh id, loses its link to the referenced
   * cell (a nil id), and is placed at its offset in database units.
   */
  lemma InstanceBack(inst: CellInstance, unit: real, normalise: real -> Excess64, id: Uuid)
    requires IsAscii(inst.instanceName) && (|inst.instanceName| == 0 || inst.instanceName[|inst.instanceName| - 1] != '\0')
    ensures SrefInstance(SrefBack(inst, unit, normalise), id).None? <==> inst.instanceName == ""
    ensures inst.instanceName != "" ==>
              SrefInstance(SrefBack(inst, unit, normalise), id)
              == Some(CellInstance(id, NilUuid, inst.instanceName, TransformBack(inst.transform, normalise).(offset := OffsetBack(inst.transform, unit))))
  {
    StringRoundTrip(inst.instanceName);
  }

  /** The instances the reader adds to a cell for some written ones, in order, each taking the next fresh id. */
  function InstancesBack(acc: StructureAcc, insts: seq<CellInstance>, unit: real, normalise: real -> Excess64): StructureAcc
    decreases |insts|
  {
    if |insts| == 0 then acc
    else
      var before := InstancesBack(acc, insts[..|insts| - 1], unit, normalise);
      WithInstance(before, SrefInstance(SrefBack(insts[|insts| - 1], unit, normalise), before.nextId))
  }

  /** Written instances, read inside a structure, one after another. */
  lemma {:induction false} ScanInstancesReads(s: seq<byte>, pos: nat, unit: real, acc: StructureAcc, insts: seq<CellInstance>,
                                              normalise: real -> Excess64, end: nat)
    requires ReadEnd(s, pos, AllSrefRecords(insts, normalise)) == Some(end)
    ensures pos <= end <= |s|
    ensures ScanStructure(s, pos, unit, acc) == ScanStructure(s, end, unit, InstancesBack(acc, insts, unit, normalise))
    decreases |insts|
  {
    if |insts| == 0 {
      assert AllSrefRecords(insts, normalise) == [];
    } else {
      var init, last := insts[..|insts| - 1], insts[|insts| - 1];
      ReadSplit(s, pos, AllSrefRecords(init, normalise), SrefRecords(last, normalise), end);
      var mid := ReadEnd(s, pos, AllSrefRecords(init, normalise)).value;
      ScanInstancesReads(s, pos, unit, acc, init, normalise, mid);
      ScanInstanceReads(s, mid, unit, InstancesBack(acc, init, unit, normalise), last, normalise, end);
    }
  }

  // ── Cells ──

  /** The records written for a cell after BGNSTR: STRNAME, the geometries, the instances, ENDSTR. */
  function CellBody(c: CellValue, normalise: real -> Excess64): seq<GdsRecord>
  {
    [StringRecord(STRNAME, c.name)] + (AllGeometryRecords(c.geometries) + (AllSrefRecords(c.instances, normalise) + [Empty(ENDSTR)]))
  }

  lemma CellRecordsShape(c: CellValue, normalise: real -> Excess64, ts: seq<i16>)
    ensures CellRecords(c, normalise, ts) == [I16Record(BGNSTR, ts)] + CellBody(c, normalise)
  {
    Regroup(I16Record(BGNSTR, ts), StringRecord(STRNAME, c.name), AllGeometryRecords(c.geometries),
      AllSrefRecords(c.instances, normalise), [Empty(ENDSTR)]);
  }

  lemma Regroup(x: GdsRecord, y: GdsRecord, a: seq<GdsRecord>, b: seq<GdsRecord>, e: seq<GdsRecord>)
    ensures [x, y] + a + b + e == [x] + ([y] + (a + (b + e)))
  {
    assert [x, y] == [x] + [y];
  }

  /** STRNAME read inside a structure names the cell. */
  lemma ScanNameItem(s: seq<byte>, pos: nat, unit: real, acc: StructureAcc, data: seq<byte>, next: nat)
    requires pos <= |s| && NextRecord(s, pos) == Next(GdsRecord(STRNAME, data), next)
    ensures ScanStructure(s, pos, unit, acc) == ScanStructure(s, next, unit, acc.(cell := acc.cell.(name := AsString(data))))
  {
    ScanStructureStep(s, pos, unit, acc);
  }

  /** What the reader makes of a written cell, starting from the cell being read in `acc`. */
  function CellBack(acc: StructureAcc, c: CellValue, unit: real, normalise: real -> Excess64): StructureAcc
  {
    var named := acc.(cell := acc.cell.(name := AsString(PaddedStringBytes(c.name))));
    InstancesBack(named.(cell := GeometriesBack(named.cell, c.geometries, unit)), c.instances, unit, normalise)
  }

  /** A written cell, read as a structure after its BGNSTR, up to and including ENDSTR. */
  lemma ScanCellReads(s: seq<byte>, pos: nat, unit: real, acc: StructureAcc, c: CellValue, normalise: real -> Excess64, end: nat)
    requires ReadEnd(s, pos, CellBody(c, normalise)) == Some(end)
    ensures pos <= |s|
    ensures ScanStructure(s, pos, unit, acc) == Ok(Parsed(CellBack(acc, c, unit, normalise), end))
  {
    var nameRec := StringRecord(STRNAME, c.name);
    var geoms, srefs := AllGeometryRecords(c.geometries), AllSrefRecords(c.instances, normalise);
    var named := acc.(cell := acc.cell.(name := AsString(PaddedStringBytes(c.name))));
    var placed := named.(cell := GeometriesBack(named.cell, c.geometries, unit));
    assert [nameRec] + (geoms + (srefs + [Empty(ENDSTR)])) == CellBody(c, normalise);
    ReadFirst(s, pos, CellBody(c, normalise), end);
    var p1 := pos + 4 + |nameRec.data|;
    ScanNameItem(s, pos, unit, acc, nameRec.data, p1);
    ReadSplit(s, p1, geoms, srefs + [Empty(ENDSTR)], end);
    var p2 := ReadEnd(s, p1, geoms).value;
    ScanGeometriesReads(s, p1, unit, named, c.geometries, p2);
    ReadSplit(s, p2, srefs, [Empty(ENDSTR)], end);
    var p3 := ReadEnd(s, p2, srefs).value;
    ScanInstancesReads(s, p2, unit, placed, c.instances, normalise, p3);
    ReadFirst(s, p3, [Empty(ENDSTR)], end);
    ScanStructureEnd(s, p3, unit, CellBack(acc, c, unit, normalise));
  }

  // ── The library ──

  /** A library scan goes on from where the item the next record opens ends. */
  lemma ScanLibStep(s: seq<byte>, pos: nat, lib: LibAcc)
    requires pos <= |s| && NextRecord(s, pos).Next? && NextRecord(s, pos).rec.recordType != ENDLIB
    requires LibItem(s, NextRecord(s, pos).next, lib, NextRecord(s, pos).rec).Ok?
    ensures ScanLib(s, pos, lib)
         == ScanLib(s, LibItem(s, NextRecord(s, pos).next, lib, NextRecord(s, pos).rec).value.next,
                    LibItem(s, NextRecord(s, pos).next, lib, NextRecord(s, pos).rec).value.value)
  {
  }

  /** A structure read, filed in the library: its cell added, its next fresh id carried on. */
  function FileCell(lib: LibAcc, st: StructureAcc): LibAcc
  {
    AddCellValue(lib, st.cell).(nextId := st.nextId)
  }

  /**
   * The cells the reader files for some written ones, in order: each cell takes the next fresh id
   * and its instances the ones after it.
   */
  function CellsBack(lib: LibAcc, cs: seq<CellValue>, normalise: real -> Excess64): LibAcc
    decreases |cs|
  {
    if |cs| == 0 then lib
    else
      var before := CellsBack(lib, cs[..|cs| - 1], normalise);
      FileCell(before, CellRead(before, cs[|cs| - 1], normalise))
  }

  /** The structure the reader makes of a written cell met while reading `lib`: a fresh cell, named, then filled. */
  function CellRead(lib: LibAcc, c: CellValue, normalise: real -> Excess64): StructureAcc
  {
    CellBack(StructureAcc(UnnamedCell(lib.nextId), lib.nextId + 1), c, lib.unit, normalise)
  }

  /** BGNSTR in the library reads a structure and files the cell it makes. */
  lemma LibStructureItem(s: seq<byte>, pos: nat, lib: LibAcc, rec: GdsRecord, st: StructureAcc, end: nat)
    requires pos <= |s| && rec.recordType == BGNSTR
    requires ScanStructure(s, pos, lib.unit, StructureAcc(UnnamedCell(lib.nextId), lib.nextId + 1)) == Ok(Parsed(st, end))
    ensures LibItem(s, pos, lib, rec) == Ok(Parsed(FileCell(lib, st), end))
  {
  }

  /** One written cell, read inside the library. */
  lemma ScanCellItem(s: seq<byte>, pos: nat, lib: LibAcc, c: CellValue, normalise: real -> Excess64, ts: seq<i16>, end: nat)
    requires ReadEnd(s, pos, CellRecords(c, normalise, ts)) == Some(end)
    ensures pos <= end <= |s|
    ensures ScanLib(s, pos, lib) == ScanLib(s, end, FileCell(lib, CellRead(lib, c, normalise)))
  {
    var bgn, body := I16Record(BGNSTR, ts), CellBody(c, normalise);
    var p1 := pos + 4 + |bgn.data|;
    assert pos <= |s| && NextRecord(s, pos) == Next(bgn, p1) && ReadEnd(s, p1, body) == Some(end) by {
      CellRecordsShape(c, normalise, ts);
      assert ([bgn] + body)[0] == bgn && ([bgn] + body)[1..] == body;
      ReadFirst(s, pos, [bgn] + body, end);
    }
    ScanCellFresh(s, p1, lib, c, normalise, end);
    ScanLibStructure(s, pos, lib, bgn, p1, CellRead(lib, c, normalise), end);
  }

  /** A written cell read into the fresh structure the library starts for it. */
  lemma ScanCellFresh(s: seq<byte>, pos: nat, lib: LibAcc, c: CellValue, normalise: real -> Excess64, end: nat)
    requires ReadEnd(s, pos, CellBody(c, normalise)) == Some(end)
    ensures ScanStructure(s, pos, lib.unit, StructureAcc(UnnamedCell(lib.nextId), lib.nextId + 1)) == Ok(Parsed(CellRead(lib, c, normalise), end))
  {
    ScanCellReads(s, pos, lib.unit, StructureAcc(UnnamedCell(lib.nextId), lib.nextId + 1), c, normalise, end);
    CellReadIs(lib, c, normalise);
  }

  lemma CellReadIs(lib: LibAcc, c: CellValue, normalise: real -> Excess64)
    ensures CellRead(lib, c, normalise) == CellBack(StructureAcc(UnnamedCell(lib.nextId), lib.nextId + 1), c, lib.unit, normalise)
  {
  }

  /** BGNSTR read in the library: the scan goes on after the structure, with its cell filed. */
  lemma ScanLibStructure(s: seq<byte>, pos: nat, lib: LibAcc, rec: GdsRecord, next: nat, st: StructureAcc, end: nat)
    requires pos <= |s| && NextRecord(s, pos) == Next(rec, next) && rec.recordType == BGNSTR
    requires ScanStructure(s, next, lib.unit, StructureAcc(UnnamedCell(lib.nextId), lib.nextId + 1)) == Ok(Parsed(st, end))
    ensures ScanLib(s, pos, lib) == ScanLib(s, end, FileCell(lib, st))
  {
    LibStructureItem(s, next, lib, rec, st, end);
    ScanLibStep(s, pos, lib);
  }

  /** Written cells, read inside the library one after another. */
  lemma {:induction false} ScanCellsReads(s: seq<byte>, pos: nat, lib: LibAcc, cs: seq<CellValue>, normalise: real -> Excess64,
                                          ts: seq<i16>, end: nat)
    requires ReadEnd(s, pos, AllCellRecords(cs, normalise, ts)) == Some(end)
    ensures pos <= end <= |s|
    ensures ScanLib(s, pos, lib) == ScanLib(s, end, CellsBack(lib, cs, normalise))
    decreases |cs|
  {
    if |cs| == 0 {
      assert AllCellRecords(cs, normalise, ts) == [];
    } else {
      var init, last := cs[..|cs| - 1], cs[|cs| - 1];
      ReadSplit(s, pos, AllCellRecords(init, normalise, ts), CellRecords(last, normalise, ts), end);
      var mid := ReadEnd(s, pos, AllCellRecords(init, normalise, ts)).value;
      ScanCellsReads(s, pos, lib, init, normalise, ts, mid);
      ScanCellItem(s, mid, CellsBack(lib, init, normalise), last, normalise, ts, end);
    }
  }

  // ── Library ──

  /** A library record that neither ends the library nor names it, sets its unit or opens a structure is skipped. */
  lemma ScanLibSkip(s: seq<byte>, pos: nat, lib: LibAcc, rec: GdsRecord, next: nat)
    requires pos <= |s| && NextRecord(s, pos) == Next(rec, next)
    requires rec.recordType != ENDLIB && rec.recordType != LIBNAME && rec.recordType != UNITS && rec.recordType != BGNSTR
    ensures ScanLib(s, pos, lib) == ScanLib(s, next, lib)
  {
    LibItemPlain(s, next, lib, rec, lib);
    ScanLibStep(s, pos, lib);
  }

  /** LIBNAME names the library with its string as read. */
  lemma ScanLibName(s: seq<byte>, pos: nat, lib: LibAcc, rec: GdsRecord, next: nat)
    requires pos <= |s| && NextRecord(s, pos) == Next(rec, next) && rec.recordType == LIBNAME
    ensures ScanLib(s, pos, lib) == ScanLib(s, next, lib.(name := AsString(rec.data)))
  {
    LibItemPlain(s, next, lib, rec, lib.(name := AsString(rec.data)));
    ScanLibStep(s, pos, lib);
  }

  /** UNITS with two values or more sets the unit to the first value times a million. */
  lemma ScanLibUnits(s: seq<byte>, pos: nat, lib: LibAcc, rec: GdsRecord, next: nat, unit: real)
    requires pos <= |s| && NextRecord(s, pos) == Next(rec, next) && rec.recordType == UNITS
    requires |Real8s(rec.data)| >= 2 && Real8s(rec.data)[0] * 1_000_000.0 == unit
    ensures ScanLib(s, pos, lib) == ScanLib(s, next, lib.(unit := unit))
  {
    LibItemPlain(s, next, lib, rec, lib.(unit := unit));
    ScanLibStep(s, pos, lib);
  }

  /** A library record that reads nothing further leaves the position where it is. */
  lemma LibItemPlain(s: seq<byte>, pos: nat, lib: LibAcc, rec: GdsRecord, after: LibAcc)
    requires pos <= |s| && rec.recordType != BGNSTR
    requires rec.recordType == LIBNAME ==> after == lib.(name := AsString(rec.data))
    requires rec.recordType == UNITS ==> after == if |Real8s(rec.data)| >= 2 then lib.(unit := Real8s(rec.data)[0] * 1_000_000.0) else lib
    requires rec.recordType != LIBNAME && rec.recordType != UNITS ==> after == lib
    ensures LibItem(s, pos, lib, rec) == Ok(Parsed(after, pos))
  {
  }

  lemma Real8sTwo(a: real, b: real, normalise: real -> Excess64)
    ensures Real8s(Real8sBytes([a, b], normalise)) == [Real8Value(RealBytes(a, normalise)), Real8Value(RealBytes(b, normalise))]
  {
    var d := Real8sBytes([a, b], normalise);
    assert [a, b][1..] == [b];
    assert d == RealBytes(a, normalise) + Real8sBytes([b], normalise);
    assert d[..8] == RealBytes(a, normalise) && d[8..] == Real8sBytes([b], normalise);
    Real8sOne(b, normalise);
  }

  /** The unit the reader takes from the UNITS record the writer writes: its first value, times a million. */
  function UnitBack(normalise: real -> Excess64): real
  {
    Real8s(Real8sBytes([DbUnitInUm * 0.001, DbUnitInUm * 0.000_001], normalise))[0] * 1_000_000.0
  }

  /**
   * The UNITS record carries the database unit in user units, 1e-6, then in metres, 1e-9; the reader
   * takes the first value times a million. As the program writes reals that is a unit of about 16;
   * with the corrected encoder it would be about 1.
   */
  lemma UnitBackNear()
    ensures 15.999_984 <= UnitBack(SourceNormalise) <= 16.0
    ensures 0.999_999 <= UnitBack(CorrectedNormalise) <= 1.0
  {
    Real8sTwo(DbUnitInUm * 0.001, DbUnitInUm * 0.000_001, SourceNormalise);
    Real8sTwo(DbUnitInUm * 0.001, DbUnitInUm * 0.000_001, CorrectedNormalise);
    MicroBack();
  }

  /** The opening records after HEADER name the library and set its unit; BGNLIB is skipped. */
  lemma ScanHeadReads(s: seq<byte>, pos: nat, lib: LibAcc, name: string, normalise: real -> Excess64, ts: seq<i16>, end: nat)
    requires ReadEnd(s, pos, LibHeadRecords(name, normalise, ts)[1..]) == Some(end)
    ensures pos <= end <= |s|
    ensures ScanLib(s, pos, lib) == ScanLib(s, end, lib.(name := AsString(PaddedStringBytes(name))).(unit := UnitBack(normalise)))
  {
    var values := [DbUnitInUm * 0.001, DbUnitInUm * 0.000_001];
    var bgn, named, units := I16Record(BGNLIB, ts), StringRecord(LIBNAME, name), Real8Record(UNITS, values, normalise);
    assert LibHeadRecords(name, normalise, ts)[1..] == [bgn, named, units];
    assert AsString(named.data) == AsString(PaddedStringBytes(name));
    assert units.data == Real8sBytes(values, normalise);
    ScanLibHead(s, pos, lib, bgn, named, units, end, AsString(PaddedStringBytes(name)), UnitBack(normalise));
  }

  /** Three records read one after another. */
  lemma ReadThree(s: seq<byte>, pos: nat, a: GdsRecord, b: GdsRecord, c: GdsRecord, p1: nat, p2: nat, end: nat)
    requires ReadEnd(s, pos, [a, b, c]) == Some(end)
    requires p1 == pos + 4 + |a.data| && p2 == p1 + 4 + |b.data|
    ensures end <= |s| && end == p2 + 4 + |c.data|
    ensures NextRecord(s, pos) == Next(a, p1) && NextRecord(s, p1) == Next(b, p2) && NextRecord(s, p2) == Next(c, end)
  {
    ReadFirstThree(s, pos, [a, b, c], end);
  }

  /** The three records read are the three records given, one after the other. */
  lemma ReadFirstThree(s: seq<byte>, pos: nat, rs: seq<GdsRecord>, end: nat)
    requires |rs| == 3 && ReadEnd(s, pos, rs) == Some(end)
    ensures pos + 4 + |rs[0].data| + 4 + |rs[1].data| + 4 + |rs[2].data| == end <= |s|
    ensures NextRecord(s, pos) == Next(rs[0], pos + 4 + |rs[0].data|)
    ensures NextRecord(s, pos + 4 + |rs[0].data|) == Next(rs[1], pos + 4 + |rs[0].data| + 4 + |rs[1].data|)
    ensures NextRecord(s, pos + 4 + |rs[0].data| + 4 + |rs[1].data|) == Next(rs[2], end)
  {
    var p1 := pos + 4 + |rs[0].data|;
    ReadFirst(s, pos, rs, end);
    ReadFirst(s, p1, rs[1..], end);
    ReadFirst(s, p1 + 4 + |rs[1].data|, rs[2..], end);
  }

  /** BGNLIB, LIBNAME and UNITS read one after another. */
  lemma ScanLibHead(s: seq<byte>, pos: nat, lib: LibAcc, bgn: GdsRecord, named: GdsRecord, units: GdsRecord,
                    end: nat, libName: string, unit: real)
    requires ReadEnd(s, pos, [bgn, named, units]) == Some(end)
    requires bgn.recordType == BGNLIB && named.recordType == LIBNAME && units.recordType == UNITS
    requires AsString(named.data) == libName && |Real8s(units.data)| >= 2 && Real8s(units.data)[0] * 1_000_000.0 == unit
    ensures pos <= end <= |s|
    ensures ScanLib(s, pos, lib) == ScanLib(s, end, lib.(name := libName).(unit := unit))
  {
    var p1 := pos + 4 + |bgn.data|;
    var p2 := p1 + 4 + |named.data|;
    var named' := lib.(name := libName);
    ReadThree(s, pos, bgn, named, units, p1, p2, end);
    assert ScanLib(s, pos, lib) == ScanLib(s, p1, lib) by {
      ScanLibSkip(s, pos, lib, bgn, p1);
    }
    assert ScanLib(s, p1, lib) == ScanLib(s, p2, named') by {
      ScanLibName(s, p1, lib, named, p2);
    }
    assert ScanLib(s, p2, named') == ScanLib(s, end, named'.(unit := unit)) by {
      ScanLibUnits(s, p2, named', units, end, unit);
    }
  }

  /** A library read from its records: the ENDLIB after the cells ends it. */
  lemma ScanLibReads(s: seq<byte>, pos: nat, lib: LibAcc, cs: seq<CellValue>, normalise: real -> Excess64, ts: seq<i16>, end: nat)
    requires ReadEnd(s, pos, AllCellRecords(cs, normalise, ts) + [Empty(ENDLIB)]) == Some(end)
    ensures ScanLib(s, pos, lib) == Ok(CellsBack(lib, cs, normalise))
  {
    ReadSplit(s, pos, AllCellRecords(cs, normalise, ts), [Empty(ENDLIB)], end);
    var mid := ReadEnd(s, pos, AllCellRecords(cs, normalise, ts)).value;
    ScanCellsReads(s, pos, lib, cs, normalise, ts, mid);
    ReadEmpty(s, mid, ENDLIB, [], end);
    ScanLibEnd(s, mid, CellsBack(lib, cs, normalise));
  }

  /**
   * What reading a written library gives: a database named as written, whose unit is taken from
   * UNITS, holding the cells read back in the order written, the first of them the top cell.
   */
  lemma LibraryRoundTrip(name: string, cs: seq<CellValue>, normalise: real -> Excess64, ts: seq<i16>, unit: real, firstId: nat)
    requires Fits(LibRecords(name, cs, normalise, ts))
    ensures ReadLibrary(Bytes(LibRecords(name, cs, normalise, ts)), 0, unit, firstId)
         == Ok(CellsBack(LibAcc(AsString(PaddedStringBytes(name)), UnitBack(normalise), map[], None, firstId + 1), cs, normalise))
  {
    var rs := LibRecords(name, cs, normalise, ts);
    WrittenReads(rs);
    LibRecordsSplit(name, cs, normalise, ts);
    ReadLibraryReads(Bytes(rs), name, cs, normalise, ts, unit, firstId);
  }

  /** The bytes of records that fit read back as those records, to the end of the bytes. */
  lemma WrittenReads(rs: seq<GdsRecord>)
    requires Fits(rs)
    ensures ReadEnd(Bytes(rs), 0, rs) == Some(|Bytes(rs)|)
  {
    var s := Bytes(rs);
    assert s[0..0 + |s|] == s;
    HoldsReads(s, 0, rs);
  }

  /** A library's records are its opening records followed by the records of its cells and ENDLIB. */
  lemma LibRecordsSplit(name: string, cs: seq<CellValue>, normalise: real -> Excess64, ts: seq<i16>)
    ensures LibRecords(name, cs, normalise, ts)
         == LibHeadRecords(name, normalise, ts) + (AllCellRecords(cs, normalise, ts) + [Empty(ENDLIB)])
  { }

  /** A stream that reads as a library's records from its start reads back as the library the reader makes of them. */
  lemma ReadLibraryReads(s: seq<byte>, name: string, cs: seq<CellValue>, normalise: real -> Excess64, ts: seq<i16>, unit: real, firstId: nat)
    requires ReadEnd(s, 0, LibHeadRecords(name, normalise, ts) + (AllCellRecords(cs, normalise, ts) + [Empty(ENDLIB)])) == Some(|s|)
    ensures ReadLibrary(s, 0, unit, firstId)
         == Ok(CellsBack(LibAcc(AsString(PaddedStringBytes(name)), UnitBack(normalise), map[], None, firstId + 1), cs, normalise))
  {
    var head, body := LibHeadRecords(name, normalise, ts), AllCellRecords(cs, normalise, ts) + [Empty(ENDLIB)];
    ReadSplit(s, 0, head, body, |s|);
    var p2 := ReadEnd(s, 0, head).value;
    ReadFirst(s, 0, head, p2);
    var p1 := 4 + |head[0].data|;
    var lib := LibAcc("imported", unit, map[], None, firstId + 1);
    ScanHeadReads(s, p1, lib, name, normalise, ts, p2);
    ScanLibReads(s, p2, lib.(name := AsString(PaddedStringBytes(name))).(unit := UnitBack(normalise)), cs, normalise, ts, |s|);
  }
}
