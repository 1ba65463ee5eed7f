/**
 * Cell model: a named container of geometry, sub-cell placements and pins,
 * with a dirty flag that every mutation sets and nothing clears.
 */
module CellModel {
  import opened Common
  import opened Geometry

  type CellId = Uuid

  /** Placement of a sub-cell: scale, then mirror about X, then rotate, then translate. Kept as data only. */
  datatype Transform = Transform(offset: Point, rotation: real, mirrorX: bool, scale: real)

  const DefaultTransform := Transform(Point(0.0, 0.0), 0.0, false, 1.0)

  /** `Transform::translate`: the identity placement moved to (x, y). */
  function TranslateTransform(x: real, y: real): (t: Transform)
    ensures t.offset == Point(x, y) && t.rotation == 0.0 && !t.mirrorX && t.scale == 1.0
  {
    DefaultTransform.(offset := Point(x, y))
  }

  /** A reference from a parent cell to a child cell by id (`CellInstance::new` with its fresh id passed in). */
  datatype CellInstance = CellInstance(id: Uuid, cellId: CellId, instanceName: string, transform: Transform)

  datatype PinDirection = Input | Output | InOut | Power | Ground

  datatype Pin = Pin(name: string, layerId: LayerId, shape: GeomPrimitive, direction: PinDirection)

  /** The value held by a `Cell` object at one moment. */
  datatype CellValue = CellValue(
    id: CellId,
    name: string,
    geometries: seq<GeomPrimitive>,
    instances: seq<CellInstance>,
    pins: seq<Pin>,
    modified: bool)

  // ── Vector operations used on the geometry list ─────────────────────

  /** `Vec::remove(i)`: the sequence without position `i`, order kept. */
  function RemoveAt<T>(s: seq<T>, i: nat): (r: seq<T>)
    requires i < |s|
    ensures |r| == |s| - 1
    ensures forall k :: 0 <= k < i ==> r[k] == s[k]
    ensures forall k :: i <= k < |r| ==> r[k] == s[k + 1]
  {
    s[..i] + s[i + 1..]
  }

  /** `Vec::insert(i, x)`: `x` placed at position `i`, later elements shifted up. */
  function InsertAt<T>(s: seq<T>, i: nat, x: T): (r: seq<T>)
    requires i <= |s|
    ensures |r| == |s| + 1 && r[i] == x
    ensures forall k :: 0 <= k < i ==> r[k] == s[k]
    ensures forall k :: i < k < |r| ==> r[k] == s[k - 1]
  {
    s[..i] + [x] + s[i..]
  }

  /** Inserting the removed element where it was restores the sequence, and vice versa. */
  lemma InsertRemoveInverse<T>(s: seq<T>, i: nat)
    requires i < |s|
    ensures InsertAt(RemoveAt(s, i), i, s[i]) == s
    ensures forall x :: RemoveAt(InsertAt(s, i, x), i) == s
  {
    var t := InsertAt(RemoveAt(s, i), i, s[i]);
    assert forall k :: 0 <= k < |s| ==> t[k] == s[k];
  }

  /** Removing the last element undoes a push. */
  lemma RemoveLastUndoesPush<T>(s: seq<T>, x: T)
    ensures RemoveAt(s + [x], |s|) == s
  {
  }

  // ── Queries over the geometry list ──────────────────────────────────

  /** `geometries_on_layer`: the geometries drawn on `layer`, in their original order. */
  function OnLayer(gs: seq<GeomPrimitive>, layer: LayerId): (r: seq<GeomPrimitive>)
    ensures |r| <= |gs|
    ensures forall g :: g in r ==> g in gs && g.LayerId() == layer
    ensures forall g :: g in gs && g.LayerId() == layer ==> g in r
    decreases |gs|
  {
    if |gs| == 0 then []
    else if gs[0].LayerId() == layer then [gs[0]] + OnLayer(gs[1..], layer)
    else OnLayer(gs[1..], layer)
  }

  /** The filter distributes over concatenation, so it keeps the original order. */
  lemma {:induction false} OnLayerAppend(a: seq<GeomPrimitive>, b: seq<GeomPrimitive>, layer: LayerId)
    ensures OnLayer(a + b, layer) == OnLayer(a, layer) + OnLayer(b, layer)
    decreases |a|
  {
    if |a| > 0 {
      assert (a + b)[1..] == a[1..] + b;
      OnLayerAppend(a[1..], b, layer);
    } else {
      assert a + b == b;
    }
  }

  /** The bounding boxes of those geometries that have one, in order (the `filter_map` step). */
  function Bboxes(gs: seq<GeomPrimitive>): (r: seq<BBox>)
    ensures |r| <= |gs|
    ensures |r| == 0 <==> forall i :: 0 <= i < |gs| ==> gs[i].BoundingBox().None?
    decreases |gs|
  {
    if |gs| == 0 then []
    else match gs[0].BoundingBox()
      case Some(b) => [b] + Bboxes(gs[1..])
      case None => Bboxes(gs[1..])
  }

  /** Every geometry's box is among the collected boxes. */
  lemma {:induction false} BboxesHasEach(gs: seq<GeomPrimitive>, i: nat)
    requires i < |gs| && gs[i].BoundingBox().Some?
    ensures gs[i].BoundingBox().value in Bboxes(gs)
    decreases |gs|
  {
    if i > 0 {
      BboxesHasEach(gs[1..], i - 1);
    }
  }

  /** Every collected box is the box of some geometry. */
  lemma {:induction false} BboxesFromSome(gs: seq<GeomPrimitive>, b: BBox)
    requires b in Bboxes(gs)
    ensures exists i :: 0 <= i < |gs| && gs[i].BoundingBox() == Some(b)
    decreases |gs|
  {
    if gs[0].BoundingBox() != Some(b) {
      BboxesFromSome(gs[1..], b);
      var i :| 0 <= i < |gs[1..]| && gs[1..][i].BoundingBox() == Some(b);
      assert gs[i + 1].BoundingBox() == Some(b);
    }
  }

  /** The left fold of `Union` over the boxes; absent for no boxes. */
  function UnionAll(bs: seq<BBox>): (r: Option<BBox>)
    ensures r.None? <==> |bs| == 0
    decreases |bs|
  {
    if |bs| == 0 then None
    else if |bs| == 1 then Some(bs[0])
    else Some(UnionAll(bs[..|bs| - 1]).value.Union(bs[|bs| - 1]))
  }

  /** The fold encloses each of the folded boxes. */
  lemma {:induction false} UnionAllEncloses(bs: seq<BBox>, b: BBox)
    requires b in bs
    ensures UnionAll(bs).value.Encloses(b)
    decreases |bs|
  {
    var n := |bs|;
    if n > 1 && b != bs[n - 1] {
      var init := bs[..n - 1];
      assert b in init by {
        var k :| 0 <= k < n && bs[k] == b;
        assert init[k] == b;
      }
      UnionAllEncloses(init, b);
    } else if n > 1 {
      assert UnionAll(bs).value == UnionAll(bs[..n - 1]).value.Union(b);
    }
  }

  /** The fold is the least box enclosing all the folded boxes. */
  lemma {:induction false} UnionAllIsLeast(bs: seq<BBox>, c: BBox)
    requires |bs| > 0
    requires forall b :: b in bs ==> c.Encloses(b)
    ensures c.Encloses(UnionAll(bs).value)
    decreases |bs|
  {
    var n := |bs|;
    if n > 1 {
      var init := bs[..n - 1];
      forall b | b in init ensures c.Encloses(b) {
        var k :| 0 <= k < |init| && init[k] == b;
        assert bs[k] == b;
      }
      UnionAllIsLeast(init, c);
      UnionIsLeast(UnionAll(init).value, bs[n - 1], c);
    }
  }

  // ── The cell object ─────────────────────────────────────────────────

  class Cell {
    const id: CellId
    var name: string
    var geometries: seq<GeomPrimitive>
    var instances: seq<CellInstance>
    var pins: seq<Pin>
    var modified: bool

    function Value(): CellValue
      reads this
    {
      CellValue(id, name, geometries, instances, pins, modified)
    }

    /** `Cell::new` with its fresh id passed in: empty and not modified. */
    constructor (id: CellId, name: string)
      ensures Value() == CellValue(id, name, [], [], [], false)
    {
      this.id := id;
      this.name := name;
      geometries := [];
      instances := [];
      pins := [];
      modified := false;
    }

    method AddGeometry(geom: GeomPrimitive)
      modifies this
      ensures Value() == old(Value()).(geometries := old(geometries) + [geom], modified := true)
    {
      geometries := geometries + [geom];
      modified := true;
    }

    /** Removes and returns the geometry at `index`; an index out of range changes nothing. */
    method RemoveGeometry(index: nat) returns (r: Option<GeomPrimitive>)
      modifies this
      ensures index < old(|geometries|) ==>
        && r == Some(old(geometries[index]))
        && Value() == old(Value()).(geometries := RemoveAt(old(geometries), index), modified := true)
      ensures old(|geometries|) <= index ==> r == None && Value() == old(Value())
    {
      if index < |geometries| {
        modified := true;
        r := Some(geometries[index]);
        geometries := RemoveAt(geometries, index);
      } else {
        r := None;
      }
    }

    method AddInstance(instance: CellInstance)
      modifies this
      ensures Value() == old(Value()).(instances := old(instances) + [instance], modified := true)
    {
      instances := instances + [instance];
      modified := true;
    }

    method AddPin(pin: Pin)
      modifies this
      ensures Value() == old(Value()).(pins := old(pins) + [pin], modified := true)
    {
      pins := pins + [pin];
      modified := true;
    }

    /**
     * `local_bbox`: the union of the boxes of this cell's own geometry (not of
     * sub-cells); absent when no geometry has a box.
     */
    method LocalBBox() returns (r: Option<BBox>)
      ensures r == UnionAll(Bboxes(geometries))
      ensures r.None? <==> forall i :: 0 <= i < |geometries| ==> geometries[i].BoundingBox().None?
      ensures r.Some? ==> forall i :: 0 <= i < |geometries| && geometries[i].BoundingBox().Some? ==>
                            r.value.Encloses(geometries[i].BoundingBox().value)
    {
      var bboxes := Bboxes(geometries);
      if |bboxes| == 0 {
        return None;
      }
      var result := bboxes[0];
      for k := 1 to |bboxes|
        invariant UnionAll(bboxes[..k]) == Some(result)
      {
        assert bboxes[..k + 1][..k] == bboxes[..k];
        result := result.Union(bboxes[k]);
      }
      assert bboxes[..|bboxes|] == bboxes;
      r := Some(result);
      forall i | 0 <= i < |geometries| && geometries[i].BoundingBox().Some?
        ensures r.value.Encloses(geometries[i].BoundingBox().value)
      {
        BboxesHasEach(geometries, i);
        UnionAllEncloses(bboxes, geometries[i].BoundingBox().value);
      }
    }

    function GeometriesOnLayer(layer: LayerId): (r: seq<GeomPrimitive>)
      reads this
      ensures forall g :: g in r <==> g in geometries && g.LayerId() == layer
    {
      OnLayer(geometries, layer)
    }

    function GeometryCount(): nat
      reads this
    {
      |geometries|
    }

    function InstanceCount(): nat
      reads this
    {
      |instances|
    }
  }

  // ── The database's cell map ─────────────────────────────────────────

  /** A cell map keyed by each cell's own id; distinct keys then hold distinct objects. */
  predicate KeyedById(cells: map<CellId, Cell>)
  {
    forall k :: k in cells ==> cells[k].id == k
  }

  /** The values of all cells in the map at one moment. */
  function Snapshot(cells: map<CellId, Cell>): (s: map<CellId, CellValue>)
    reads cells.Values
    ensures s.Keys == cells.Keys
  {
    map k | k in cells :: cells[k].Value()
  }

  /** The two-rectangle example: the local box of [0,0]-[100,50] and [50,25]-[200,75] is [0,0]-[200,75]. */
  lemma LocalBBoxExample()
    ensures UnionAll(Bboxes([RectGeom(Rect.New(0, 0.0, 0.0, 100.0, 50.0)), RectGeom(Rect.New(1, 50.0, 25.0, 200.0, 75.0))]))
         == Some(BBox(Point(0.0, 0.0), Point(200.0, 75.0)))
  {
    var gs := [RectGeom(Rect.New(0, 0.0, 0.0, 100.0, 50.0)), RectGeom(Rect.New(1, 50.0, 25.0, 200.0, 75.0))];
    assert gs[1..][1..] == [];
    var bs := Bboxes(gs);
    assert bs == [BBox(Point(0.0, 0.0), Point(100.0, 50.0)), BBox(Point(50.0, 25.0), Point(200.0, 75.0))];
    assert bs[..1] == [bs[0]];
  }
}
