/** The flat geometry records exchanged with the editor front end, and the two IPC operations on cells. */
module Frontend {
  import opened Common
  import opened Geometry
  import opened CellModel
  import opened Commands
  import opened Database

  /**
   * A primitive flattened to a type tag, a layer, a point list and an optional width.
   * The front end's `{x, y}` point record is the model's `Point`.
   */
  datatype FlatGeometry = FlatGeometry(geomType: string, layerId: LayerId, points: seq<Point>, width: Option<real>)

  /** Width a path record without one gets. */
  const DefaultPathWidth: real := 0.1
  /** Width (and height) a via record without a width gets. */
  const DefaultViaWidth: real := 0.17

  /** Flattens a primitive: a rectangle as its two corners, a via as its position on its cut layer. */
  function FromPrimitive(p: GeomPrimitive): (f: FlatGeometry)
    ensures f.layerId == p.LayerId()
    ensures p.RectGeom? ==> f.geomType == "rect" && f.points == [p.rect.lowerLeft, p.rect.upperRight] && f.width.None?
    ensures p.PolygonGeom? ==> f.geomType == "polygon" && f.points == p.polygon.vertices && f.width.None?
    ensures p.PathGeom? ==> f.geomType == "path" && f.points == p.path.points && f.width == Some(p.path.width)
    ensures p.ViaGeom? ==> f.geomType == "via" && f.points == [p.via.position] && f.width == Some(p.via.width)
  {
    match p
    case RectGeom(r) => FlatGeometry("rect", r.layerId, [r.lowerLeft, r.upperRight], None)
    case PolygonGeom(q) => FlatGeometry("polygon", q.layerId, q.vertices, None)
    case PathGeom(q) => FlatGeometry("path", q.layerId, q.points, Some(q.width))
    case ViaGeom(v) => FlatGeometry("via", v.cutLayer, [v.position], Some(v.width))
  }

  /** Rebuilds a primitive; an unknown tag or too few points gives `None`. */
  function ToPrimitive(f: FlatGeometry): (r: Option<GeomPrimitive>)
    ensures r.Some? <==>
      || (f.geomType == "rect" && |f.points| >= 2)
      || (f.geomType == "polygon" && |f.points| >= 3)
      || (f.geomType == "path" && |f.points| >= 2)
      || (f.geomType == "via" && |f.points| >= 1)
    ensures r.Some? ==> r.value.LayerId() == f.layerId
    ensures r.Some? && f.geomType == "rect" ==>
      && r.value.RectGeom? && r.value.rect.lowerLeft.x <= r.value.rect.upperRight.x && r.value.rect.lowerLeft.y <= r.value.rect.upperRight.y
      && {r.value.rect.lowerLeft.x, r.value.rect.upperRight.x} == {f.points[0].x, f.points[1].x}
      && {r.value.rect.lowerLeft.y, r.value.rect.upperRight.y} == {f.points[0].y, f.points[1].y}
    ensures r.Some? && f.geomType == "polygon" ==> r.value.PolygonGeom? && r.value.polygon.vertices == f.points
    ensures r.Some? && f.geomType == "path" ==>
      r.value.PathGeom? && r.value.path.points == f.points && r.value.path.width == (if f.width.Some? then f.width.value else DefaultPathWidth)
    ensures r.Some? && f.geomType == "via" ==>
      && r.value.ViaGeom? && r.value.via.position == f.points[0]
      && r.value.via.height == r.value.via.width && r.value.via.width == (if f.width.Some? then f.width.value else DefaultViaWidth)
  {
    if f.geomType == "rect" && |f.points| >= 2 then
      Some(RectGeom(Rect.New(f.layerId, f.points[0].x, f.points[0].y, f.points[1].x, f.points[1].y)))
    else if f.geomType == "polygon" && |f.points| >= 3 then
      Some(PolygonGeom(Polygon(f.layerId, f.points)))
    else if f.geomType == "path" && |f.points| >= 2 then
      Some(PathGeom(Path(f.layerId, f.points, if f.width.Some? then f.width.value else DefaultPathWidth)))
    else if f.geomType == "via" && |f.points| >= 1 then
      var w := if f.width.Some? then f.width.value else DefaultViaWidth;
      Some(ViaGeom(Via(f.layerId, f.layerId, f.layerId, f.points[0], w, w)))
    else
      None
  }

  /** A rectangle comes back with normalised corners; so a normalised one comes back unchanged. */
  lemma RectRoundTrip(r: Rect)
    ensures ToPrimitive(FromPrimitive(RectGeom(r)))
         == Some(RectGeom(Rect.New(r.layerId, r.lowerLeft.x, r.lowerLeft.y, r.upperRight.x, r.upperRight.y)))
    ensures r.lowerLeft.x <= r.upperRight.x && r.lowerLeft.y <= r.upperRight.y ==>
      ToPrimitive(FromPrimitive(RectGeom(r))) == Some(RectGeom(r))
  {
  }

  /** A polygon comes back unchanged exactly when it has at least three vertices, and not at all otherwise. */
  lemma PolygonRoundTrip(q: Polygon)
    ensures |q.vertices| >= 3 <==> ToPrimitive(FromPrimitive(PolygonGeom(q))) == Some(PolygonGeom(q))
    ensures |q.vertices| < 3 <==> ToPrimitive(FromPrimitive(PolygonGeom(q))).None?
  {
  }

  /** A path comes back unchanged exactly when it has at least two points, and not at all otherwise. */
  lemma PathRoundTrip(q: Path)
    ensures |q.points| >= 2 <==> ToPrimitive(FromPrimitive(PathGeom(q))) == Some(PathGeom(q))
    ensures |q.points| < 2 <==> ToPrimitive(FromPrimitive(PathGeom(q))).None?
  {
  }

  /**
   * A via comes back on its cut layer with a square cut of its width; it is unchanged
   * exactly when its three layers agree and its height equals its width.
   */
  lemma ViaRoundTrip(v: Via)
    ensures ToPrimitive(FromPrimitive(ViaGeom(v)))
         == Some(ViaGeom(Via(v.cutLayer, v.cutLayer, v.cutLayer, v.position, v.width, v.width)))
    ensures ToPrimitive(FromPrimitive(ViaGeom(v))) == Some(ViaGeom(v))
        <==> v.bottomLayer == v.cutLayer && v.topLayer == v.cutLayer && v.height == v.width
  {
  }

  /** A primitive the flat form carries without loss. */
  predicate Lossless(g: GeomPrimitive)
  {
    match g
    case RectGeom(r) => r.lowerLeft.x <= r.upperRight.x && r.lowerLeft.y <= r.upperRight.y
    case PolygonGeom(q) => |q.vertices| >= 3
    case PathGeom(q) => |q.points| >= 2
    case ViaGeom(v) => v.bottomLayer == v.cutLayer && v.topLayer == v.cutLayer && v.height == v.width
  }

  /** Flattening then rebuilding is the identity exactly on lossless primitives. */
  lemma RoundTripIffLossless(g: GeomPrimitive)
    ensures ToPrimitive(FromPrimitive(g)) == Some(g) <==> Lossless(g)
  {
    match g
    case RectGeom(r) => RectRoundTrip(r);
    case PolygonGeom(q) => PolygonRoundTrip(q);
    case PathGeom(q) => PathRoundTrip(q);
    case ViaGeom(v) => ViaRoundTrip(v);
  }

  /** The convertible records, rebuilt, in input order. */
  function Converted(fs: seq<FlatGeometry>): (r: seq<GeomPrimitive>)
    ensures |r| <= |fs|
  {
    if |fs| == 0 then []
    else
      var last := fs[|fs| - 1];
      Converted(fs[..|fs| - 1]) + (if ToPrimitive(last).Some? then [ToPrimitive(last).value] else [])
  }

  /** Every rebuilt primitive comes from some record, and every convertible record is rebuilt. */
  lemma {:induction false} ConvertedMembers(fs: seq<FlatGeometry>)
    ensures forall g :: g in Converted(fs) ==> exists f :: f in fs && ToPrimitive(f) == Some(g)
    ensures forall f :: f in fs && ToPrimitive(f).Some? ==> ToPrimitive(f).value in Converted(fs)
  {
    if |fs| > 0 {
      ConvertedMembers(fs[..|fs| - 1]);
      assert fs == fs[..|fs| - 1] + [fs[|fs| - 1]];
    }
  }

  /** Every primitive flattened, in order (one cell's share of the export). */
  function Flattened(gs: seq<GeomPrimitive>): (r: seq<FlatGeometry>)
    ensures |r| == |gs|
  {
    seq(|gs|, i requires 0 <= i < |gs| => FromPrimitive(gs[i]))
  }

  /** Exporting lossless geometry and importing it again gives back the same list. */
  lemma {:induction false} ExportImportRoundTrip(gs: seq<GeomPrimitive>)
    requires forall i :: 0 <= i < |gs| ==> Lossless(gs[i])
    ensures Converted(Flattened(gs)) == gs
  {
    if |gs| > 0 {
      var init := gs[..|gs| - 1];
      ExportImportRoundTrip(init);
      assert Flattened(gs)[..|gs| - 1] == Flattened(init);
      RoundTripIffLossless(gs[|gs| - 1]);
      assert gs == init + [gs[|gs| - 1]];
    }
  }

  /**
   * Replaces the top cell's geometry with the convertible records, in order. Without a top cell
   * a cell "TOP" (with the given fresh id) is added first. The list is written directly, so the
   * top cell's `modified` flag is left as it was, and no command is recorded.
   */
  method ImportAllGeometries(db: LayoutDatabase, geometries: seq<FlatGeometry>, projectName: Option<string>, newId: CellId)
    returns (topId: CellId)
    requires db.Valid()
    modifies db, db.cells.Values
    ensures db.Valid()
    ensures db.topCell == Some(topId)
    ensures db.name == if projectName.Some? then projectName.value else old(db.name)
    ensures old(db.topCell).Some? ==>
      && topId == old(db.topCell.value) && db.cells == old(db.cells)
      && db.cells[topId].Value() == old(db.cells[topId].Value()).(geometries := Converted(geometries))
    ensures old(db.topCell).None? ==>
      && topId == newId && db.cells.Keys == old(db.cells).Keys + {newId} && fresh(db.cells[topId])
      && db.cells[topId].Value() == CellValue(newId, "TOP", Converted(geometries), [], [], false)
    ensures forall k :: k in old(db.cells) && k != topId ==> db.cells[k] == old(db.cells[k]) && db.cells[k].Value() == old(db.cells[k].Value())
  {
    if projectName.Some? {
      db.name := projectName.value;
    }
    if db.topCell.Some? {
      topId := db.topCell.value;
      RefillTop(db, geometries);
    } else {
      topId := AddTop(db, geometries, newId);
    }
  }

  /** The top cell exists: its list is cleared and refilled; the cell map itself is untouched. */
  method RefillTop(db: LayoutDatabase, geometries: seq<FlatGeometry>)
    requires db.Valid() && db.topCell.Some?
    modifies db.cells[db.topCell.value]
    ensures db.cells[db.topCell.value].Value() == old(db.cells[db.topCell.value].Value()).(geometries := Converted(geometries))
  {
    var top := db.cells[db.topCell.value];
    top.geometries := [];
    AppendConverted(top, geometries);
  }

  /** There is no top cell: a new cell "TOP" holding the records is added, and becomes the top cell. */
  method AddTop(db: LayoutDatabase, geometries: seq<FlatGeometry>, newId: CellId) returns (topId: CellId)
    requires db.Valid() && db.topCell.None?
    modifies db`cells, db`topCell
    ensures db.Valid()
    ensures topId == newId && db.topCell == Some(newId) && db.cells == old(db.cells)[newId := db.cells[newId]]
    ensures fresh(db.cells[newId]) && db.cells[newId].Value() == CellValue(newId, "TOP", Converted(geometries), [], [], false)
  {
    var top := new Cell(newId, "TOP");
    AppendConverted(top, geometries);
    topId := db.AddCell(top);
  }

  /** Pushes the convertible records onto the cell's geometry list, one by one, bypassing the dirty flag. */
  method AppendConverted(cell: Cell, geometries: seq<FlatGeometry>)
    modifies cell
    ensures cell.Value() == old(cell.Value()).(geometries := old(cell.geometries) + Converted(geometries))
  {
    for i := 0 to |geometries|
      invariant cell.Value() == old(cell.Value()).(geometries := old(cell.geometries) + Converted(geometries[..i]))
    {
      assert geometries[..i + 1][..i] == geometries[..i];
      var prim := ToPrimitive(geometries[i]);
      if prim.Some? {
        cell.geometries := cell.geometries + [prim.value];
      }
    }
    assert geometries[..|geometries|] == geometries;
  }

  /** The remove-geometry IPC call: issues a remove command only for an index inside an existing cell. */
  method RemoveGeometryIpc(db: LayoutDatabase, cellId: CellId, index: nat) returns (issued: bool)
    requires db.Valid()
    modifies db.history, db.cells.Values
    ensures db.Valid()
    ensures issued == old(cellId in db.cells && index < |db.cells[cellId].geometries|)
    ensures issued ==>
      db.history.State(db.cells) == JExecute(old(db.history.State(db.cells)), RemoveGeometryCommand(cellId, index, None))
    ensures issued ==> Snapshot(db.cells)[cellId].geometries == RemoveAt(old(db.cells[cellId].geometries), index)
    ensures !issued ==> db.history.State(db.cells) == old(db.history.State(db.cells))
  {
    issued := cellId in db.cells && index < |db.cells[cellId].geometries|;
    if issued {
      db.ExecuteCommand(RemoveGeometryCommand(cellId, index, None));
    }
  }
}
