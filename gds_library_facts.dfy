// What a library read back from its own GDSII bytes holds: how many cells, under which ids,
// which is the top cell, and what each cell keeps of the geometries and instances written.

module GdsLibraryFacts {
  import opened Common
  import opened Geometry
  import opened CellModel
  import opened GdsCodec
  import opened GdsReading
  import opened GdsWriting
  import opened GdsRoundTrip

  // ── Geometries ──

  /** The geometries that come back from some written ones, in order: the lost ones left out. */
  function Kept(gs: seq<GeomPrimitive>, unit: real): seq<GeomPrimitive>
    decreases |gs|
  {
    if |gs| == 0 then []
    else
      var back := ElementBack(gs[|gs| - 1], unit);
      Kept(gs[..|gs| - 1], unit) + (if back.Some? then [back.value] else [])
  }

  /** Reading written geometries appends the kept ones to the cell and touches nothing else but the modified flag. */
  lemma {:induction false} GeometriesBackKept(cell: CellValue, gs: seq<GeomPrimitive>, unit: real)
    ensures GeometriesBack(cell, gs, unit)
         == cell.(geometries := cell.geometries + Kept(gs, unit), modified := cell.modified || |Kept(gs, unit)| > 0)
    decreases |gs|
  {
    if |gs| > 0 {
      var init := gs[..|gs| - 1];
      GeometriesBackKept(cell, init, unit);
      WithGeometryKept(cell, Kept(init, unit), ElementBack(gs[|gs| - 1], unit));
    }
  }

  lemma WithGeometryKept(cell: CellValue, kept: seq<GeomPrimitive>, back: Option<GeomPrimitive>)
    ensures WithGeometry(cell.(geometries := cell.geometries + kept, modified := cell.modified || |kept| > 0), back)
         == cell.(geometries := cell.geometries + (kept + (if back.Some? then [back.value] else [])),
                  modified := cell.modified || |kept + (if back.Some? then [back.value] else [])| > 0)
  {
    if back.Some? {
      assert cell.geometries + kept + [back.value] == cell.geometries + (kept + [back.value]);
    }
  }

  /**
   * Geometries that all have a bounding box all come back, one for one and in order, each on its
   * layer when that layer is below 0x8000.
   */
  lemma {:induction false} KeptAll(gs: seq<GeomPrimitive>, unit: real)
    requires forall i :: 0 <= i < |gs| ==> gs[i].BoundingBox().Some?
    ensures |Kept(gs, unit)| == |gs|
    ensures forall i :: 0 <= i < |gs| ==> ElementBack(gs[i], unit) == Some(Kept(gs, unit)[i])
    ensures forall i :: 0 <= i < |gs| && gs[i].LayerId() < 0x8000 ==> Kept(gs, unit)[i].LayerId() == gs[i].LayerId()
    decreases |gs|
  {
    if |gs| > 0 {
      var init, last := gs[..|gs| - 1], gs[|gs| - 1];
      KeptAll(init, unit);
      ElementBackPresent(last, unit);
      forall i | 0 <= i < |gs|
        ensures ElementBack(gs[i], unit) == Some(Kept(gs, unit)[i])
      {
        if i < |gs| - 1 {
          assert gs[i] == init[i];
        }
      }
      forall i | 0 <= i < |gs| && gs[i].LayerId() < 0x8000
        ensures Kept(gs, unit)[i].LayerId() == gs[i].LayerId()
      {
        ElementBackLayer(gs[i], unit);
      }
    }
  }

  /** No more geometries come back than were written. */
  lemma {:induction false} KeptAtMost(gs: seq<GeomPrimitive>, unit: real)
    ensures |Kept(gs, unit)| <= |gs|
    decreases |gs|
  {
    if |gs| > 0 {
      KeptAtMost(gs[..|gs| - 1], unit);
    }
  }

  // ── Instances ──

  /** The number of written instances with a name: the ones that come back. */
  function Named(insts: seq<CellInstance>): nat
    decreases |insts|
  {
    if |insts| == 0 then 0
    else Named(insts[..|insts| - 1]) + (if insts[|insts| - 1].instanceName == "" then 0 else 1)
  }

  /**
   * Reading written instances leaves the cell's id, name and geometries alone, adds one instance per
   * named one (none for an unnamed one), numbers the added ones with consecutive fresh ids, and
   * carries the next fresh id past them. This holds for names that read back as written: ASCII,
   * without a trailing NUL.
   */
  lemma InstancesBackIds(acc: StructureAcc, insts: seq<CellInstance>, unit: real, normalise: real -> Excess64)
    requires forall i :: 0 <= i < |insts| ==> PlainName(insts[i].instanceName)
    ensures |InstancesBack(acc, insts, unit, normalise).cell.instances| == |acc.cell.instances| + Named(insts)
    ensures InstancesBack(acc, insts, unit, normalise).nextId == acc.nextId + Named(insts)
    ensures InstancesBack(acc, insts, unit, normalise).cell
         == acc.cell.(instances := InstancesBack(acc, insts, unit, normalise).cell.instances,
                      modified := InstancesBack(acc, insts, unit, normalise).cell.modified)
    ensures InstancesBack(acc, insts, unit, normalise).cell.instances[..|acc.cell.instances|] == acc.cell.instances
    ensures forall j :: |acc.cell.instances| <= j < |InstancesBack(acc, insts, unit, normalise).cell.instances| ==>
              && InstancesBack(acc, insts, unit, normalise).cell.instances[j].id == acc.nextId + (j - |acc.cell.instances|)
              && InstancesBack(acc, insts, unit, normalise).cell.instances[j].cellId == NilUuid
  {
    InstancesBackCount(acc, insts, unit, normalise);
    InstancesBackAppends(acc, insts, unit, normalise);
    InstancesBackNumbered(acc, insts, unit, normalise);
  }

  /** Reading written instances adds one instance, and uses one fresh id, per named one. */
  lemma {:induction false} InstancesBackCount(acc: StructureAcc, insts: seq<CellInstance>, unit: real, normalise: real -> Excess64)
    requires forall i :: 0 <= i < |insts| ==> PlainName(insts[i].instanceName)
    ensures |InstancesBack(acc, insts, unit, normalise).cell.instances| == |acc.cell.instances| + Named(insts)
    ensures InstancesBack(acc, insts, unit, normalise).nextId == acc.nextId + Named(insts)
    decreases |insts|
  {
    if |insts| > 0 {
      var init, last := insts[..|insts| - 1], insts[|insts| - 1];
      assert forall i :: 0 <= i < |init| ==> init[i] == insts[i];
      InstancesBackCount(acc, init, unit, normalise);
      InstanceBack(last, unit, normalise, InstancesBack(acc, init, unit, normalise).nextId);
    }
  }

  /** Reading written instances only appends to the cell's instances and sets its modified flag. */
  lemma {:induction false} InstancesBackAppends(acc: StructureAcc, insts: seq<CellInstance>, unit: real, normalise: real -> Excess64)
    ensures InstancesBack(acc, insts, unit, normalise).cell
         == acc.cell.(instances := InstancesBack(acc, insts, unit, normalise).cell.instances,
                      modified := InstancesBack(acc, insts, unit, normalise).cell.modified)
    ensures |InstancesBack(acc, insts, unit, normalise).cell.instances| >= |acc.cell.instances|
    ensures InstancesBack(acc, insts, unit, normalise).cell.instances[..|acc.cell.instances|] == acc.cell.instances
    decreases |insts|
  {
    if |insts| > 0 {
      var init := insts[..|insts| - 1];
      InstancesBackAppends(acc, init, unit, normalise);
      var before := InstancesBack(acc, init, unit, normalise);
      var after := InstancesBack(acc, insts, unit, normalise);
      if after != before {
        assert after.cell.instances[..|before.cell.instances|] == before.cell.instances;
      }
    }
  }

  /** The instances a read adds are numbered on from the next fresh id and linked to no cell. */
  lemma {:induction false} InstancesBackNumbered(acc: StructureAcc, insts: seq<CellInstance>, unit: real, normalise: real -> Excess64)
    requires forall i :: 0 <= i < |insts| ==> PlainName(insts[i].instanceName)
    ensures forall j :: |acc.cell.instances| <= j < |InstancesBack(acc, insts, unit, normalise).cell.instances| ==>
              && InstancesBack(acc, insts, unit, normalise).cell.instances[j].id == acc.nextId + (j - |acc.cell.instances|)
              && InstancesBack(acc, insts, unit, normalise).cell.instances[j].cellId == NilUuid
    decreases |insts|
  {
    if |insts| > 0 {
      var init, last := insts[..|insts| - 1], insts[|insts| - 1];
      assert forall i :: 0 <= i < |init| ==> init[i] == insts[i];
      InstancesBackNumbered(acc, init, unit, normalise);
      InstancesBackCount(acc, init, unit, normalise);
      InstancesBackAppends(acc, init, unit, normalise);
      var before := InstancesBack(acc, init, unit, normalise);
      InstanceBack(last, unit, normalise, before.nextId);
      var after := InstancesBack(acc, insts, unit, normalise);
      assert after == WithInstance(before, SrefInstance(SrefBack(last, unit, normalise), before.nextId));
      forall j | |acc.cell.instances| <= j < |after.cell.instances|
        ensures after.cell.instances[j].id == acc.nextId + (j - |acc.cell.instances|)
        ensures after.cell.instances[j].cellId == NilUuid
      {
        if j < |before.cell.instances| {
          assert after.cell.instances[j] == before.cell.instances[j];
        }
      }
    }
  }

  /** A name that reads back as written: ASCII, without a trailing NUL. */
  predicate PlainName(name: string)
  {
    IsAscii(name) && (|name| == 0 || name[|name| - 1] != '\0')
  }

  /** Reading instances never hands an id back: the next fresh id only grows, and the cell keeps its id. */
  lemma {:induction false} InstancesBackGrows(acc: StructureAcc, insts: seq<CellInstance>, unit: real, normalise: real -> Excess64)
    ensures InstancesBack(acc, insts, unit, normalise).nextId >= acc.nextId
    ensures InstancesBack(acc, insts, unit, normalise).cell.id == acc.cell.id
    decreases |insts|
  {
    if |insts| > 0 {
      InstancesBackGrows(acc, insts[..|insts| - 1], unit, normalise);
    }
  }

  /** Reading instances leaves the cell's name and geometries alone. */
  lemma {:induction false} InstancesBackKeeps(acc: StructureAcc, insts: seq<CellInstance>, unit: real, normalise: real -> Excess64)
    ensures InstancesBack(acc, insts, unit, normalise).cell.name == acc.cell.name
    ensures InstancesBack(acc, insts, unit, normalise).cell.geometries == acc.cell.geometries
    decreases |insts|
  {
    if |insts| > 0 {
      InstancesBackKeeps(acc, insts[..|insts| - 1], unit, normalise);
    }
  }

  // ── Cells ──

  /** A cell read in the library takes the next fresh id, and the ones after it go to its instances. */
  lemma CellReadIds(lib: LibAcc, c: CellValue, normalise: real -> Excess64)
    ensures CellRead(lib, c, normalise).cell.id == lib.nextId
    ensures CellRead(lib, c, normalise).nextId > lib.nextId
  {
    CellReadIs(lib, c, normalise);
    var start := StructureAcc(UnnamedCell(lib.nextId), lib.nextId + 1);
    var named := start.(cell := start.cell.(name := AsString(PaddedStringBytes(c.name))));
    var filled := named.(cell := GeometriesBack(named.cell, c.geometries, lib.unit));
    GeometriesBackKept(named.cell, c.geometries, lib.unit);
    InstancesBackGrows(filled, c.instances, lib.unit, normalise);
  }

  /**
   * What a cell read back holds: its fresh id; its name as read, which is the name written when that
   * is ASCII without a trailing NUL; and the written geometries that come back, in order.
   */
  lemma CellReadHolds(lib: LibAcc, c: CellValue, normalise: real -> Excess64)
    ensures CellRead(lib, c, normalise).cell.id == lib.nextId
    ensures CellRead(lib, c, normalise).cell.name == AsString(PaddedStringBytes(c.name))
    ensures PlainName(c.name) ==> CellRead(lib, c, normalise).cell.name == c.name
    ensures CellRead(lib, c, normalise).cell.geometries == Kept(c.geometries, lib.unit)
  {
    var r, filled := CellRead(lib, c, normalise), CellFilled(lib, c, normalise);
    assert r.cell.id == filled.cell.id && r.cell.name == filled.cell.name && r.cell.geometries == filled.cell.geometries by {
      CellReadFilled(lib, c, normalise);
      InstancesBackGrows(filled, c.instances, lib.unit, normalise);
      InstancesBackKeeps(filled, c.instances, lib.unit, normalise);
    }
    assert filled.cell.id == lib.nextId && filled.cell.name == AsString(PaddedStringBytes(c.name))
        && filled.cell.geometries == Kept(c.geometries, lib.unit) by {
      CellReadFilled(lib, c, normalise);
    }
    if PlainName(c.name) {
      StringRoundTrip(c.name);
    }
  }

  /**
   * The instances of a cell read back: one per named written instance, numbered from the id after
   * the cell's and linked to no cell; the next fresh id is past them.
   */
  lemma CellReadInstances(lib: LibAcc, c: CellValue, normalise: real -> Excess64)
    requires forall i :: 0 <= i < |c.instances| ==> PlainName(c.instances[i].instanceName)
    ensures |CellRead(lib, c, normalise).cell.instances| == Named(c.instances)
    ensures CellRead(lib, c, normalise).nextId == lib.nextId + 1 + Named(c.instances)
    ensures forall j :: 0 <= j < |CellRead(lib, c, normalise).cell.instances| ==>
              && CellRead(lib, c, normalise).cell.instances[j].id == lib.nextId + 1 + j
              && CellRead(lib, c, normalise).cell.instances[j].cellId == NilUuid
  {
    CellReadFilled(lib, c, normalise);
    InstancesBackIds(CellFilled(lib, c, normalise), c.instances, lib.unit, normalise);
  }

  /** The structure a cell read has reached once its name and geometries are read, before its instances. */
  function CellFilled(lib: LibAcc, c: CellValue, normalise: real -> Excess64): StructureAcc
  {
    var name := AsString(PaddedStringBytes(c.name));
    StructureAcc(GeometriesBack(UnnamedCell(lib.nextId).(name := name), c.geometries, lib.unit), lib.nextId + 1)
  }

  /** A cell read is its filled structure with its instances read after. */
  lemma CellReadFilled(lib: LibAcc, c: CellValue, normalise: real -> Excess64)
    ensures CellRead(lib, c, normalise) == InstancesBack(CellFilled(lib, c, normalise), c.instances, lib.unit, normalise)
    ensures CellFilled(lib, c, normalise).cell
         == CellValue(lib.nextId, AsString(PaddedStringBytes(c.name)), Kept(c.geometries, lib.unit), [], [], |Kept(c.geometries, lib.unit)| > 0)
  {
    CellReadIs(lib, c, normalise);
    var name := AsString(PaddedStringBytes(c.name));
    GeometriesBackKept(UnnamedCell(lib.nextId).(name := name), c.geometries, lib.unit);
  }

  // ── The library ──

  /**
   * Reading written cells files each one under an id of its own: with every id already filed below
   * the next fresh one, the library gains exactly one cell per written cell, every id stays below
   * the next fresh one, the first cell read becomes the top cell of a library without one, and the
   * library's name and unit are left alone.
   */
  lemma CellsBackFiles(lib: LibAcc, cs: seq<CellValue>, normalise: real -> Excess64)
    requires forall k :: k in lib.cells ==> k < lib.nextId
    ensures forall k :: k in CellsBack(lib, cs, normalise).cells ==> k < CellsBack(lib, cs, normalise).nextId
    ensures |CellsBack(lib, cs, normalise).cells.Keys| == |lib.cells.Keys| + |cs|
    ensures CellsBack(lib, cs, normalise).nextId >= lib.nextId + |cs|
    ensures CellsBack(lib, cs, normalise).name == lib.name && CellsBack(lib, cs, normalise).unit == lib.unit
    ensures lib.top.Some? ==> CellsBack(lib, cs, normalise).top == lib.top
    ensures lib.top.None? && |cs| > 0 ==> CellsBack(lib, cs, normalise).top == Some(lib.nextId)
  {
    CellsBackFresh(lib, cs, normalise);
    CellsBackKeeps(lib, cs, normalise);
  }

  /** Every cell read back is filed under a fresh id: one more cell per written cell, every id below the next fresh one. */
  lemma {:induction false} CellsBackFresh(lib: LibAcc, cs: seq<CellValue>, normalise: real -> Excess64)
    requires forall k :: k in lib.cells ==> k < lib.nextId
    ensures forall k :: k in CellsBack(lib, cs, normalise).cells ==> k < CellsBack(lib, cs, normalise).nextId
    ensures |CellsBack(lib, cs, normalise).cells.Keys| == |lib.cells.Keys| + |cs|
    ensures CellsBack(lib, cs, normalise).nextId >= lib.nextId + |cs|
    decreases |cs|
  {
    if |cs| > 0 {
      var init := cs[..|cs| - 1];
      CellsBackFresh(lib, init, normalise);
      var before := CellsBack(lib, init, normalise);
      var st := CellRead(before, cs[|cs| - 1], normalise);
      CellReadIds(before, cs[|cs| - 1], normalise);
      assert st.cell.id !in before.cells;
      var after := CellsBack(lib, cs, normalise);
      assert after == FileCell(before, st);
      assert after.cells.Keys == before.cells.Keys + {st.cell.id};
    }
  }

  /** Reading cells leaves the library's name and unit alone, and the first cell read becomes the top cell of a library without one. */
  lemma {:induction false} CellsBackKeeps(lib: LibAcc, cs: seq<CellValue>, normalise: real -> Excess64)
    ensures CellsBack(lib, cs, normalise).name == lib.name && CellsBack(lib, cs, normalise).unit == lib.unit
    ensures lib.top.Some? ==> CellsBack(lib, cs, normalise).top == lib.top
    ensures lib.top.None? && |cs| > 0 ==> CellsBack(lib, cs, normalise).top == Some(lib.nextId)
    decreases |cs|
  {
    if |cs| > 0 {
      var init := cs[..|cs| - 1];
      CellsBackKeeps(lib, init, normalise);
      var before := CellsBack(lib, init, normalise);
      CellReadIds(before, cs[|cs| - 1], normalise);
      if |init| == 0 {
        assert before == lib;
      }
    }
  }

  /**
   * A library written and read back holds one cell per cell written; the first one written is the
   * top cell; the library keeps its name when that is ASCII without a trailing NUL; and its unit
   * is the first UNITS value times a million: about 16 as the program writes reals, where the
   * writer's own unit is 0.001.
   */
  lemma WrittenLibraryHolds(name: string, cs: seq<CellValue>, normalise: real -> Excess64, ts: seq<i16>, unit: real, firstId: nat)
    requires Fits(LibRecords(name, cs, normalise, ts))
    ensures ReadLibrary(Bytes(LibRecords(name, cs, normalise, ts)), 0, unit, firstId).Ok?
    ensures |ReadLibrary(Bytes(LibRecords(name, cs, normalise, ts)), 0, unit, firstId).value.cells.Keys| == |cs|
    ensures |cs| > 0 ==> ReadLibrary(Bytes(LibRecords(name, cs, normalise, ts)), 0, unit, firstId).value.top == Some(firstId + 1)
    ensures PlainName(name) ==> ReadLibrary(Bytes(LibRecords(name, cs, normalise, ts)), 0, unit, firstId).value.name == name
    ensures ReadLibrary(Bytes(LibRecords(name, cs, normalise, ts)), 0, unit, firstId).value.unit == UnitBack(normalise)
    ensures normalise == SourceNormalise ==>
              15.999_984 <= ReadLibrary(Bytes(LibRecords(name, cs, normalise, ts)), 0, unit, firstId).value.unit <= 16.0
  {
    var start := LibAcc(AsString(PaddedStringBytes(name)), UnitBack(normalise), map[], None, firstId + 1);
    LibraryRoundTrip(name, cs, normalise, ts, unit, firstId);
    CellsBackFiles(start, cs, normalise);
    if PlainName(name) {
      StringRoundTrip(name);
    }
    if normalise == SourceNormalise {
      UnitBackNear();
    }
  }
}
