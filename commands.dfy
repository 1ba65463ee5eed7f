/**
 * Undo/redo journal: three reversible edit commands that capture exactly the
 * state they need to invert themselves, and a history of two stacks.
 *
 * Commands act on the database's cell map.  Each command is a value that the
 * history owns; executing or undoing it yields the command with its captured
 * state updated (the inserted index, the removed geometry).
 */
module Commands {
  import opened Common
  import opened Geometry
  import opened CellModel

  // ── Translating one primitive ───────────────────────────────────────

  /** The coordinates of a primitive, in order: two corners, the vertices, the points, or the via position. */
  function Coordinates(g: GeomPrimitive): seq<Point>
  {
    match g
    case RectGeom(r) => [r.lowerLeft, r.upperRight]
    case PolygonGeom(p) => p.vertices
    case PathGeom(p) => p.points
    case ViaGeom(v) => [v.position]
  }

  const Origin := Point(0.0, 0.0)

  /** A primitive with its coordinates dropped (corners and position at the origin, no vertices): all it has besides them. */
  function Skeleton(g: GeomPrimitive): GeomPrimitive
  {
    match g
    case RectGeom(r) => RectGeom(r.(lowerLeft := Origin, upperRight := Origin))
    case PolygonGeom(p) => PolygonGeom(p.(vertices := []))
    case PathGeom(p) => PathGeom(p.(points := []))
    case ViaGeom(v) => ViaGeom(v.(position := Origin))
  }

  function TranslatedPoints(pts: seq<Point>, dx: real, dy: real): seq<Point>
  {
    seq(|pts|, i requires 0 <= i < |pts| => pts[i].Translate(dx, dy))
  }

  /** `translate_geometry`: every coordinate moved by (dx, dy). */
  function Translated(g: GeomPrimitive, dx: real, dy: real): GeomPrimitive
  {
    match g
    case RectGeom(r) =>
      RectGeom(r.(lowerLeft := r.lowerLeft.Translate(dx, dy), upperRight := r.upperRight.Translate(dx, dy)))
    case PolygonGeom(p) => PolygonGeom(p.(vertices := TranslatedPoints(p.vertices, dx, dy)))
    case PathGeom(p) => PathGeom(p.(points := TranslatedPoints(p.points, dx, dy)))
    case ViaGeom(v) => ViaGeom(v.(position := v.position.Translate(dx, dy)))
  }

  /** Translation moves every coordinate by (dx, dy) and changes nothing else: layers, widths and counts are kept. */
  lemma TranslatedShape(g: GeomPrimitive, dx: real, dy: real)
    ensures Skeleton(Translated(g, dx, dy)) == Skeleton(g)
    ensures Translated(g, dx, dy).LayerId() == g.LayerId()
    ensures |Coordinates(Translated(g, dx, dy))| == |Coordinates(g)|
    ensures forall i :: 0 <= i < |Coordinates(g)| ==>
              Coordinates(Translated(g, dx, dy))[i] == Coordinates(g)[i].Translate(dx, dy)
  {
  }

  /** A primitive is fixed by its skeleton and its coordinates. */
  lemma SkeletonAndCoordinatesDetermine(g: GeomPrimitive, h: GeomPrimitive)
    requires Skeleton(g) == Skeleton(h) && Coordinates(g) == Coordinates(h)
    ensures g == h
  {
    match g
    case RectGeom(r) =>
    case PolygonGeom(p) =>
    case PathGeom(p) =>
    case ViaGeom(v) =>
  }

  /** Two translations compose into one by the summed offset. */
  lemma TranslatedCompose(g: GeomPrimitive, a: real, b: real, c: real, d: real)
    ensures Translated(Translated(g, a, b), c, d) == Translated(g, a + c, b + d)
  {
    var lhs := Translated(Translated(g, a, b), c, d);
    var rhs := Translated(g, a + c, b + d);
    TranslatedShape(g, a, b);
    TranslatedShape(Translated(g, a, b), c, d);
    TranslatedShape(g, a + c, b + d);
    assert Coordinates(lhs) == Coordinates(rhs);
    SkeletonAndCoordinatesDetermine(lhs, rhs);
  }

  /** Translating by zero changes nothing. */
  lemma TranslatedZero(g: GeomPrimitive)
    ensures Translated(g, 0.0, 0.0) == g
  {
    var r := Translated(g, 0.0, 0.0);
    TranslatedShape(g, 0.0, 0.0);
    assert Coordinates(r) == Coordinates(g);
    SkeletonAndCoordinatesDetermine(r, g);
  }

  /** Translating by the negated offset undoes a translation. */
  lemma TranslatedUndo(g: GeomPrimitive, dx: real, dy: real)
    ensures Translated(Translated(g, dx, dy), -dx, -dy) == g
  {
    TranslatedCompose(g, dx, dy, -dx, -dy);
    TranslatedZero(g);
  }

  /** The in-place loop over a point list of `translate_geometry`. */
  method TranslatePoints(pts: seq<Point>, dx: real, dy: real) returns (r: seq<Point>)
    ensures r == TranslatedPoints(pts, dx, dy)
  {
    r := pts;
    for i := 0 to |r|
      invariant |r| == |pts|
      invariant forall k :: 0 <= k < i ==> r[k] == pts[k].Translate(dx, dy)
      invariant forall k :: i <= k < |r| ==> r[k] == pts[k]
    {
      r := r[i := r[i].Translate(dx, dy)];
    }
  }

  method TranslateGeometry(g: GeomPrimitive, dx: real, dy: real) returns (r: GeomPrimitive)
    ensures r == Translated(g, dx, dy)
  {
    match g
    case RectGeom(rect) =>
      r := RectGeom(rect.(lowerLeft := rect.lowerLeft.Translate(dx, dy),
                          upperRight := rect.upperRight.Translate(dx, dy)));
    case PolygonGeom(p) =>
      var vs := TranslatePoints(p.vertices, dx, dy);
      r := PolygonGeom(p.(vertices := vs));
    case PathGeom(p) =>
      var ps := TranslatePoints(p.points, dx, dy);
      r := PathGeom(p.(points := ps));
    case ViaGeom(v) =>
      r := ViaGeom(v.(position := v.position.Translate(dx, dy)));
  }

  // ── Moving listed geometries ────────────────────────────────────────

  /** One step of the move loop: translate position `idx` if it is in range, else skip it. */
  function MoveOne(gs: seq<GeomPrimitive>, idx: nat, dx: real, dy: real): seq<GeomPrimitive>
  {
    if idx < |gs| then gs[idx := Translated(gs[idx], dx, dy)] else gs
  }

  /** The move loop over all listed indices, in list order. */
  function MoveAll(gs: seq<GeomPrimitive>, indices: seq<nat>, dx: real, dy: real): (r: seq<GeomPrimitive>)
    ensures |r| == |gs|
    decreases |indices|
  {
    if |indices| == 0 then gs
    else MoveOne(MoveAll(gs, indices[..|indices| - 1], dx, dy), indices[|indices| - 1], dx, dy)
  }

  /** How many times `j` occurs in the index list. */
  function Occurrences(indices: seq<nat>, j: nat): nat
    decreases |indices|
  {
    if |indices| == 0 then 0
    else Occurrences(indices[..|indices| - 1], j) + (if indices[|indices| - 1] == j then 1 else 0)
  }

  /** `g` translated `n` times by (dx, dy). */
  function TranslatedTimes(g: GeomPrimitive, n: nat, dx: real, dy: real): GeomPrimitive
  {
    if n == 0 then g else Translated(TranslatedTimes(g, n - 1, dx, dy), dx, dy)
  }

  /** The first of `n + 1` translations can be taken out in front. */
  lemma {:induction false} TranslatedTimesShift(g: GeomPrimitive, n: nat, dx: real, dy: real)
    ensures TranslatedTimes(g, n + 1, dx, dy) == TranslatedTimes(Translated(g, dx, dy), n, dx, dy)
  {
    if n > 0 {
      TranslatedTimesShift(g, n - 1, dx, dy);
    }
  }

  /** `n` translations by (-dx, -dy) undo `n` translations by (dx, dy). */
  lemma {:induction false} TranslatedTimesUndo(g: GeomPrimitive, n: nat, dx: real, dy: real)
    ensures TranslatedTimes(TranslatedTimes(g, n, dx, dy), n, -dx, -dy) == g
  {
    if n > 0 {
      var h := TranslatedTimes(g, n - 1, dx, dy);
      TranslatedTimesShift(Translated(h, dx, dy), n - 1, -dx, -dy);
      TranslatedUndo(h, dx, dy);
      TranslatedTimesUndo(g, n - 1, dx, dy);
    }
  }

  /** Each geometry is translated once per occurrence of its index in the list; out-of-range indices are skipped. */
  lemma {:induction false} MoveAllPointwise(gs: seq<GeomPrimitive>, indices: seq<nat>, dx: real, dy: real, j: nat)
    requires j < |gs|
    ensures MoveAll(gs, indices, dx, dy)[j] == TranslatedTimes(gs[j], Occurrences(indices, j), dx, dy)
    decreases |indices|
  {
    var n := |indices|;
    if n > 0 {
      var init := indices[..n - 1];
      MoveAllPointwise(gs, init, dx, dy, j);
      assert MoveAll(gs, indices, dx, dy)[j] == MoveOne(MoveAll(gs, init, dx, dy), indices[n - 1], dx, dy)[j];
    }
  }

  lemma MoveAllUndoAt(gs: seq<GeomPrimitive>, indices: seq<nat>, dx: real, dy: real, j: nat)
    requires j < |gs|
    ensures MoveAll(MoveAll(gs, indices, dx, dy), indices, -dx, -dy)[j] == gs[j]
  {
    var moved := MoveAll(gs, indices, dx, dy);
    MoveAllPointwise(gs, indices, dx, dy, j);
    MoveAllPointwise(moved, indices, -dx, -dy, j);
    TranslatedTimesUndo(gs[j], Occurrences(indices, j), dx, dy);
  }

  /** Moving by `delta` and then by `-delta` over the same list restores every geometry. */
  lemma MoveAllUndo(gs: seq<GeomPrimitive>, indices: seq<nat>, dx: real, dy: real)
    ensures MoveAll(MoveAll(gs, indices, dx, dy), indices, -dx, -dy) == gs
  {
    var back := MoveAll(MoveAll(gs, indices, dx, dy), indices, -dx, -dy);
    forall j | 0 <= j < |gs|
      ensures back[j] == gs[j]
    {
      MoveAllUndoAt(gs, indices, dx, dy, j);
    }
  }

  /** The loop of the move command over one cell's geometry vector, translating in place. */
  method MoveGeometries(cell: Cell, indices: seq<nat>, dx: real, dy: real)
    modifies cell
    ensures cell.Value() == old(cell.Value()).(geometries := MoveAll(old(cell.geometries), indices, dx, dy))
  {
    for k := 0 to |indices|
      invariant cell.Value() == old(cell.Value()).(geometries := MoveAll(old(cell.geometries), indices[..k], dx, dy))
    {
      assert indices[..k + 1][..k] == indices[..k];
      var idx := indices[k];
      if idx < |cell.geometries| {
        var moved := TranslateGeometry(cell.geometries[idx], dx, dy);
        cell.geometries := cell.geometries[idx := moved];
      }
    }
    assert indices[..|indices|] == indices;
  }

  // ── The three commands ──────────────────────────────────────────────

  type CellValues = map<CellId, CellValue>

  /**
   * The concrete commands.  `insertedIndex` and `removed` are the state a
   * command captures when executed so that it can invert itself.
   */
  datatype Command =
    | AddGeometryCommand(cellId: CellId, geometry: GeomPrimitive, insertedIndex: Option<nat>)
    | RemoveGeometryCommand(cellId: CellId, index: nat, removed: Option<GeomPrimitive>)
    | MoveGeometryCommand(cellId: CellId, indices: seq<nat>, delta: Point)
  {
    /** As built by the commands' `new`: nothing captured yet. */
    predicate Fresh()
    {
      && (AddGeometryCommand? ==> insertedIndex.None?)
      && (RemoveGeometryCommand? ==> removed.None?)
    }

    function Description(): string
    {
      match this
      case AddGeometryCommand(_, _, _) => "Add geometry"
      case RemoveGeometryCommand(_, _, _) => "Remove geometry"
      case MoveGeometryCommand(_, _, _) => "Move geometry"
    }
  }

  /** A command after it has run on one cell, with that cell's new value. */
  datatype CellOutcome = CellOutcome(cmd: Command, cell: CellValue)

  /** A command after it has run, with all the cells. */
  datatype Outcome = Outcome(cmd: Command, cells: CellValues)

  /** What `execute` does to the command and to the cell it names. */
  function ExecutedOn(cmd: Command, c: CellValue): CellOutcome
  {
    match cmd
    case AddGeometryCommand(_, g, _) =>
      CellOutcome(cmd.(insertedIndex := Some(|c.geometries|)),
                  c.(geometries := c.geometries + [g], modified := true))
    case RemoveGeometryCommand(_, i, _) =>
      if i < |c.geometries| then
        CellOutcome(cmd.(removed := Some(c.geometries[i])),
                    c.(geometries := RemoveAt(c.geometries, i), modified := true))
      else CellOutcome(cmd.(removed := None), c)
    case MoveGeometryCommand(_, indices, delta) =>
      CellOutcome(cmd, c.(geometries := MoveAll(c.geometries, indices, delta.x, delta.y), modified := true))
  }

  /** What `undo` does to the command and to the cell it names. */
  function UndoneOn(cmd: Command, c: CellValue): CellOutcome
  {
    match cmd
    case AddGeometryCommand(_, _, idx) =>
      if idx.Some? && idx.value < |c.geometries| then
        CellOutcome(cmd, c.(geometries := RemoveAt(c.geometries, idx.value), modified := true))
      else CellOutcome(cmd, c)
    case RemoveGeometryCommand(_, i, rem) =>
      if rem.None? then CellOutcome(cmd, c)
      else
        var gs := if i <= |c.geometries| then InsertAt(c.geometries, i, rem.value) else c.geometries + [rem.value];
        CellOutcome(cmd, c.(geometries := gs, modified := true))
    case MoveGeometryCommand(_, indices, delta) =>
      CellOutcome(cmd, c.(geometries := MoveAll(c.geometries, indices, -delta.x, -delta.y), modified := true))
  }

  /** `execute` on all cells: a missing cell leaves the command and the cells as they were. */
  function Executed(cmd: Command, s: CellValues): (r: Outcome)
    ensures r.cells.Keys == s.Keys
    ensures forall k :: k in s && k != cmd.cellId ==> r.cells[k] == s[k]
    ensures r.cmd.cellId == cmd.cellId && r.cmd.Description() == cmd.Description()
  {
    if cmd.cellId !in s then Outcome(cmd, s)
    else
      var o := ExecutedOn(cmd, s[cmd.cellId]);
      Outcome(o.cmd, s[cmd.cellId := o.cell])
  }

  /**
   * `undo` on all cells.  With its cell missing, a removal still drops the
   * geometry it saved (the `take` happens before the lookup).
   */
  function Undone(cmd: Command, s: CellValues): (r: Outcome)
    ensures r.cells.Keys == s.Keys
    ensures forall k :: k in s && k != cmd.cellId ==> r.cells[k] == s[k]
    ensures r.cmd.cellId == cmd.cellId && r.cmd.Description() == cmd.Description()
  {
    if cmd.cellId !in s then
      Outcome(if cmd.RemoveGeometryCommand? then cmd.(removed := None) else cmd, s)
    else
      var o := UndoneOn(cmd, s[cmd.cellId]);
      Outcome(o.cmd, s[cmd.cellId := o.cell])
  }

  /** The three `execute` implementations, on the cell the command names. */
  method ExecuteOn(cmd: Command, cell: Cell) returns (done: Command)
    modifies cell
    ensures CellOutcome(done, cell.Value()) == ExecutedOn(cmd, old(cell.Value()))
  {
    match cmd {
      case AddGeometryCommand(_, g, _) =>
        cell.AddGeometry(g);
        done := cmd.(insertedIndex := Some(cell.GeometryCount() - 1));
      case RemoveGeometryCommand(_, i, _) =>
        var r := cell.RemoveGeometry(i);
        done := cmd.(removed := r);
      case MoveGeometryCommand(_, indices, delta) =>
        MoveGeometries(cell, indices, delta.x, delta.y);
        cell.modified := true;
        done := cmd;
    }
  }

  /** The three `undo` implementations, on the cell the command names. */
  method UndoOn(cmd: Command, cell: Cell) returns (done: Command)
    modifies cell
    ensures CellOutcome(done, cell.Value()) == UndoneOn(cmd, old(cell.Value()))
  {
    done := cmd;
    match cmd {
      case AddGeometryCommand(_, _, idx) =>
        if idx.Some? {
          var _ := cell.RemoveGeometry(idx.value);
        }
      case RemoveGeometryCommand(_, i, rem) =>
        if rem.Some? {
          if i <= |cell.geometries| {
            cell.geometries := InsertAt(cell.geometries, i, rem.value);
          } else {
            cell.geometries := cell.geometries + [rem.value];
          }
          cell.modified := true;
        }
      case MoveGeometryCommand(_, indices, delta) =>
        MoveGeometries(cell, indices, -delta.x, -delta.y);
        cell.modified := true;
    }
  }

  /** `execute` against the database's cell map (`get_cell_mut`, then the command's own code). */
  method ExecuteCommand(cmd: Command, cells: map<CellId, Cell>) returns (done: Command)
    requires KeyedById(cells)
    modifies cells.Values
    ensures Outcome(done, Snapshot(cells)) == Executed(cmd, old(Snapshot(cells)))
  {
    if cmd.cellId !in cells {
      return cmd;
    }
    var cell := cells[cmd.cellId];
    assert forall k :: k in cells && k != cmd.cellId ==> cells[k] != cell;
    done := ExecuteOn(cmd, cell);
    assert Snapshot(cells) == old(Snapshot(cells))[cmd.cellId := cell.Value()];
  }

  /** `undo` against the database's cell map. */
  method UndoCommand(cmd: Command, cells: map<CellId, Cell>) returns (done: Command)
    requires KeyedById(cells)
    modifies cells.Values
    ensures Outcome(done, Snapshot(cells)) == Undone(cmd, old(Snapshot(cells)))
  {
    if cmd.cellId !in cells {
      return if cmd.RemoveGeometryCommand? then cmd.(removed := None) else cmd;
    }
    var cell := cells[cmd.cellId];
    assert forall k :: k in cells && k != cmd.cellId ==> cells[k] != cell;
    done := UndoOn(cmd, cell);
    assert Snapshot(cells) == old(Snapshot(cells))[cmd.cellId := cell.Value()];
  }

  // ── Inverse laws of a single command ────────────────────────────────

  /** On its cell, undo after execute restores the geometry and everything else but the dirty flag. */
  lemma ExecuteThenUndoOn(cmd: Command, c: CellValue)
    ensures var o := ExecutedOn(cmd, c);
            var u := UndoneOn(o.cmd, o.cell);
            u.cell == c || u.cell == c.(modified := true)
  {
    match cmd
    case AddGeometryCommand(_, g, _) =>
      RemoveLastUndoesPush(c.geometries, g);
    case RemoveGeometryCommand(_, i, _) =>
      if i < |c.geometries| {
        InsertRemoveInverse(c.geometries, i);
      }
    case MoveGeometryCommand(_, indices, delta) =>
      MoveAllUndo(c.geometries, indices, delta.x, delta.y);
  }

  /** On its cell, executing again after an undo repeats the first execution exactly. */
  lemma UndoThenExecuteOn(cmd: Command, c: CellValue)
    ensures var o := ExecutedOn(cmd, c);
            var u := UndoneOn(o.cmd, o.cell);
            ExecutedOn(u.cmd, u.cell) == o
  {
    ExecuteThenUndoOn(cmd, c);
    match cmd
    case AddGeometryCommand(_, g, _) =>
    case RemoveGeometryCommand(_, i, _) =>
    case MoveGeometryCommand(_, indices, delta) =>
  }

  /** `t` is `s`, except that the cell `cid` may have gained the modified flag. */
  predicate RestoredUpToFlag(t: CellValues, s: CellValues, cid: CellId)
  {
    t == s || (cid in s && t == s[cid := s[cid].(modified := true)])
  }

  /** Undo after execute gives back the cells as they were (only the dirty flag may stay set). */
  lemma ExecuteThenUndoRestores(cmd: Command, s: CellValues)
    ensures var o := Executed(cmd, s); RestoredUpToFlag(Undone(o.cmd, o.cells).cells, s, cmd.cellId)
  {
    var cid := cmd.cellId;
    if cid in s {
      ExecuteThenUndoOn(cmd, s[cid]);
      var o := Executed(cmd, s);
      var u := UndoneOn(o.cmd, o.cells[cid]);
      assert Undone(o.cmd, o.cells).cells == s[cid := u.cell];
      if u.cell == s[cid] {
        assert s[cid := u.cell] == s;
      }
    }
  }

  /**
   * Executing again after an undo (a redo) repeats the first execution exactly,
   * for a command fresh from its constructor or one whose cell exists.
   */
  lemma UndoThenExecuteRepeats(cmd: Command, s: CellValues)
    requires cmd.Fresh() || cmd.cellId in s
    ensures var o := Executed(cmd, s);
            var u := Undone(o.cmd, o.cells);
            Executed(u.cmd, u.cells) == o
  {
    var cid := cmd.cellId;
    if cid in s {
      UndoThenExecuteOn(cmd, s[cid]);
      var o := Executed(cmd, s);
      var u := Undone(o.cmd, o.cells);
      assert u.cells == s[cid := UndoneOn(o.cmd, o.cells[cid]).cell];
      assert Executed(u.cmd, u.cells).cells == o.cells;
    }
  }

  // ── Agreement up to the dirty flag ──────────────────────────────────

  /** The cells with every dirty flag cleared: what an edit means, apart from bookkeeping. */
  function Unflagged(s: CellValues): (r: CellValues)
    ensures r.Keys == s.Keys
  {
    map k | k in s :: s[k].(modified := false)
  }

  lemma RestoredUnflagged(t: CellValues, s: CellValues, cid: CellId)
    requires RestoredUpToFlag(t, s, cid)
    ensures Unflagged(t) == Unflagged(s)
  {
    assert forall k :: k in t ==> Unflagged(t)[k] == Unflagged(s)[k];
  }

  /** On cells that differ only in the dirty flag, a command does the same thing. */
  lemma OnRespectsFlag(cmd: Command, c: CellValue, d: CellValue)
    requires c.(modified := false) == d.(modified := false)
    ensures ExecutedOn(cmd, c).cmd == ExecutedOn(cmd, d).cmd
    ensures ExecutedOn(cmd, c).cell.(modified := false) == ExecutedOn(cmd, d).cell.(modified := false)
    ensures UndoneOn(cmd, c).cmd == UndoneOn(cmd, d).cmd
    ensures UndoneOn(cmd, c).cell.(modified := false) == UndoneOn(cmd, d).cell.(modified := false)
  {
    assert c.geometries == d.geometries;
  }

  /** Replacing one cell by values that agree up to the flag keeps agreeing maps agreeing. */
  lemma UpdateRespectsUnflagged(s: CellValues, t: CellValues, cid: CellId, c: CellValue, d: CellValue)
    requires Unflagged(s) == Unflagged(t)
    requires c.(modified := false) == d.(modified := false)
    ensures Unflagged(s[cid := c]) == Unflagged(t[cid := d])
  {
    forall k | k in s || k == cid
      ensures Unflagged(s[cid := c])[k] == Unflagged(t[cid := d])[k]
    {
      if k != cid {
        assert Unflagged(s)[k] == Unflagged(t)[k];
      }
    }
  }

  /** Executing a command on cells that agree up to dirty flags gives the same command and agreeing cells. */
  lemma ExecutedRespectsUnflagged(cmd: Command, s: CellValues, t: CellValues)
    requires Unflagged(s) == Unflagged(t)
    ensures Executed(cmd, s).cmd == Executed(cmd, t).cmd
    ensures Unflagged(Executed(cmd, s).cells) == Unflagged(Executed(cmd, t).cells)
  {
    var cid := cmd.cellId;
    if cid in s {
      assert Unflagged(s)[cid] == Unflagged(t)[cid];
      OnRespectsFlag(cmd, s[cid], t[cid]);
      UpdateRespectsUnflagged(s, t, cid, ExecutedOn(cmd, s[cid]).cell, ExecutedOn(cmd, t[cid]).cell);
    }
  }

  /** Undoing a command on cells that agree up to dirty flags gives the same command and agreeing cells. */
  lemma UndoneRespectsUnflagged(cmd: Command, s: CellValues, t: CellValues)
    requires Unflagged(s) == Unflagged(t)
    ensures Undone(cmd, s).cmd == Undone(cmd, t).cmd
    ensures Unflagged(Undone(cmd, s).cells) == Unflagged(Undone(cmd, t).cells)
  {
    var cid := cmd.cellId;
    if cid in s {
      assert Unflagged(s)[cid] == Unflagged(t)[cid];
      OnRespectsFlag(cmd, s[cid], t[cid]);
      UpdateRespectsUnflagged(s, t, cid, UndoneOn(cmd, s[cid]).cell, UndoneOn(cmd, t[cid]).cell);
    }
  }

  // ── The history ─────────────────────────────────────────────────────

  /** The two stacks (top at the end) together with the cells they act on. */
  datatype Journal = Journal(undo: seq<Command>, redo: seq<Command>, cells: CellValues)

  /** `CommandHistory::execute`: run, push onto the undo stack, forget the redo stack. */
  function JExecute(j: Journal, cmd: Command): (r: Journal)
    ensures |r.undo| == |j.undo| + 1 && r.redo == []
  {
    var o := Executed(cmd, j.cells);
    Journal(j.undo + [o.cmd], [], o.cells)
  }

  /** `CommandHistory::undo`: pop the undo stack, undo, push onto the redo stack; nothing to undo changes nothing. */
  function JUndo(j: Journal): (r: Journal)
    ensures |j.undo| == 0 ==> r == j
    ensures |j.undo| > 0 ==> r.undo == j.undo[..|j.undo| - 1] && |r.redo| == |j.redo| + 1
  {
    if |j.undo| == 0 then j
    else
      var o := Undone(j.undo[|j.undo| - 1], j.cells);
      Journal(j.undo[..|j.undo| - 1], j.redo + [o.cmd], o.cells)
  }

  /** `CommandHistory::redo`: pop the redo stack, execute again, push onto the undo stack. */
  function JRedo(j: Journal): (r: Journal)
    ensures |j.redo| == 0 ==> r == j
    ensures |j.redo| > 0 ==> r.redo == j.redo[..|j.redo| - 1] && |r.undo| == |j.undo| + 1
  {
    if |j.redo| == 0 then j
    else
      var o := Executed(j.redo[|j.redo| - 1], j.cells);
      Journal(j.undo + [o.cmd], j.redo[..|j.redo| - 1], o.cells)
  }

  /** Each operation moves exactly one command between the stacks and leaves the rest of both stacks alone. */
  lemma StackDiscipline(j: Journal, cmd: Command)
    ensures JExecute(j, cmd).undo == j.undo + [Executed(cmd, j.cells).cmd]
    ensures |j.undo| > 0 ==> JUndo(j).redo == j.redo + [Undone(j.undo[|j.undo| - 1], j.cells).cmd]
    ensures |j.redo| > 0 ==> JRedo(j).undo == j.undo + [Executed(j.redo[|j.redo| - 1], j.cells).cmd]
  {
  }

  /** Undo right after execute restores the undo stack and the cells (up to the dirty flag). */
  lemma ExecuteThenUndo(j: Journal, cmd: Command)
    ensures var u := JUndo(JExecute(j, cmd));
            u.undo == j.undo && |u.redo| == 1 && RestoredUpToFlag(u.cells, j.cells, cmd.cellId)
  {
    ExecuteThenUndoRestores(cmd, j.cells);
    var e := JExecute(j, cmd);
    assert e.undo[..|e.undo| - 1] == j.undo;
  }

  /** Redo right after undo right after execute is the state the execute produced. */
  lemma ExecuteUndoRedo(j: Journal, cmd: Command)
    requires cmd.Fresh() || cmd.cellId in j.cells
    ensures JRedo(JUndo(JExecute(j, cmd))) == JExecute(j, cmd)
  {
    UndoThenExecuteRepeats(cmd, j.cells);
    var e := JExecute(j, cmd);
    assert e.undo[..|e.undo| - 1] == j.undo;
    var u := JUndo(e);
    assert u.redo == [u.redo[0]];
    assert u.redo[..0] == [];
  }

  /** The commands executed one after another, first to last. */
  function ExecuteAll(j: Journal, cmds: seq<Command>): (r: Journal)
    ensures |r.undo| == |j.undo| + |cmds| && r.cells.Keys == j.cells.Keys
    decreases |cmds|
  {
    if |cmds| == 0 then j
    else JExecute(ExecuteAll(j, cmds[..|cmds| - 1]), cmds[|cmds| - 1])
  }

  /** `n` successive undos. */
  function UndoTimes(j: Journal, n: nat): Journal
    decreases n
  {
    if n == 0 then j else UndoTimes(JUndo(j), n - 1)
  }

  /** Undoing from journals with the same undo stack and agreeing cells keeps them that way. */
  lemma {:induction false} UndoTimesRespectsUnflagged(j: Journal, k: Journal, n: nat)
    requires j.undo == k.undo && Unflagged(j.cells) == Unflagged(k.cells)
    ensures UndoTimes(j, n).undo == UndoTimes(k, n).undo
    ensures Unflagged(UndoTimes(j, n).cells) == Unflagged(UndoTimes(k, n).cells)
    decreases n
  {
    if n > 0 {
      if |j.undo| > 0 {
        UndoneRespectsUnflagged(j.undo[|j.undo| - 1], j.cells, k.cells);
      }
      UndoTimesRespectsUnflagged(JUndo(j), JUndo(k), n - 1);
    }
  }

  /**
   * Undoing as many times as commands were executed gives back the undo stack
   * and the cells the session started from (up to dirty flags).
   */
  lemma {:induction false} UndoAllRestores(j: Journal, cmds: seq<Command>)
    ensures UndoTimes(ExecuteAll(j, cmds), |cmds|).undo == j.undo
    ensures Unflagged(UndoTimes(ExecuteAll(j, cmds), |cmds|).cells) == Unflagged(j.cells)
    decreases |cmds|
  {
    var n := |cmds|;
    if n > 0 {
      var before := ExecuteAll(j, cmds[..n - 1]);
      var c := cmds[n - 1];
      var back := JUndo(JExecute(before, c));
      assert UndoTimes(ExecuteAll(j, cmds), n) == UndoTimes(back, n - 1);
      ExecuteThenUndo(before, c);
      RestoredUnflagged(back.cells, before.cells, c.cellId);
      UndoTimesRespectsUnflagged(back, before, n - 1);
      UndoAllRestores(j, cmds[..n - 1]);
      assert |cmds[..n - 1]| == n - 1;
    }
  }

  /** `n` successive redos. */
  function RedoTimes(j: Journal, n: nat): Journal
    decreases n
  {
    if n == 0 then j else RedoTimes(JRedo(j), n - 1)
  }

  /** The last of `n + 1` redos comes after the first `n`. */
  lemma {:induction false} RedoTimesLast(j: Journal, n: nat)
    ensures RedoTimes(j, n + 1) == JRedo(RedoTimes(j, n))
    decreases n
  {
    if n > 0 {
      RedoTimesLast(JRedo(j), n - 1);
    }
  }

  /** `t` agrees with `s` up to dirty flags, and every cell dirty in `s` is dirty in `t`. */
  predicate FlagsCover(t: CellValues, s: CellValues)
  {
    t.Keys == s.Keys && Unflagged(t) == Unflagged(s) && forall k :: k in s && s[k].modified ==> t[k].modified
  }

  /**
   * On a cell that agrees with the executed one up to the dirty flag, and is dirty where that one
   * is, undo then execute repeats the execution and leaves the cell as it found it; the undo
   * restores the cell the command first ran on, up to the flag, and keeps its flag.
   */
  lemma UndoThenExecuteCovered(cmd: Command, c: CellValue, d: CellValue)
    requires d.(modified := false) == ExecutedOn(cmd, c).cell.(modified := false)
    requires ExecutedOn(cmd, c).cell.modified ==> d.modified
    ensures var o := ExecutedOn(cmd, c);
            var u := UndoneOn(o.cmd, d);
            && ExecutedOn(u.cmd, u.cell) == CellOutcome(o.cmd, d)
            && u.cell.(modified := false) == c.(modified := false)
            && (c.modified ==> u.cell.modified)
  {
    var o := ExecutedOn(cmd, c);
    UndoThenExecuteOn(cmd, c);
    ExecuteThenUndoOn(cmd, c);
    OnRespectsFlag(o.cmd, o.cell, d);
    if o.cell.modified {
      assert d == o.cell;
    }
  }

  /**
   * The same over all cells, for a command fresh from its constructor or one whose cell exists:
   * on cells that cover what it produced, undo then execute gives back the command and the cells,
   * and the undo leaves cells that cover the ones it first ran on.
   */
  lemma UndoThenExecuteCoveredAll(cmd: Command, s: CellValues, t: CellValues)
    requires cmd.Fresh() || cmd.cellId in s
    requires FlagsCover(t, Executed(cmd, s).cells)
    ensures var top := Executed(cmd, s).cmd;
            var u := Undone(top, t);
            Executed(u.cmd, u.cells) == Outcome(top, t) && FlagsCover(u.cells, s)
  {
    if cmd.cellId in s {
      UndoThenExecuteCoveredIn(cmd, s, t);
    } else {
      assert Undone(cmd, t) == Outcome(cmd, t);
    }
  }

  /** The case of a command whose cell exists: the cell-level facts, written back into the map. */
  lemma UndoThenExecuteCoveredIn(cmd: Command, s: CellValues, t: CellValues)
    requires cmd.cellId in s
    requires FlagsCover(t, Executed(cmd, s).cells)
    ensures var top := Executed(cmd, s).cmd;
            var u := Undone(top, t);
            Executed(u.cmd, u.cells) == Outcome(top, t) && FlagsCover(u.cells, s)
  {
    var cid := cmd.cellId;
    UndoneCovers(cmd, s, t);
    UndoThenExecuteCovered(cmd, s[cid], t[cid]);
    var u := UndoneOn(ExecutedOn(cmd, s[cid]).cmd, t[cid]);
    PutBack(t, cid, u.cell);
  }

  /** Writing a cell's old value back over a new one gives back the map. */
  lemma PutBack(m: CellValues, k: CellId, v: CellValue)
    requires k in m
    ensures m[k := v][k := m[k]] == m
  {
    assert m[k := v][k := m[k]].Keys == m.Keys;
  }

  /** The cell-level facts carried over to the map: the undo leaves cells covering the ones the command first ran on. */
  lemma UndoneCovers(cmd: Command, s: CellValues, t: CellValues)
    requires cmd.cellId in s
    requires FlagsCover(t, Executed(cmd, s).cells)
    ensures cmd.cellId in t
    ensures var u := UndoneOn(ExecutedOn(cmd, s[cmd.cellId]).cmd, t[cmd.cellId]);
            FlagsCover(t[cmd.cellId := u.cell], s)
  {
    var cid := cmd.cellId;
    var o := ExecutedOn(cmd, s[cid]);
    var e := s[cid := o.cell];
    assert Executed(cmd, s).cells == e;
    assert Unflagged(t)[cid] == Unflagged(e)[cid];
    UndoThenExecuteCovered(cmd, s[cid], t[cid]);
    var u := UndoneOn(o.cmd, t[cid]);
    forall k | k in s && k != cid
      ensures t[k].(modified := false) == s[k].(modified := false)
    {
      assert Unflagged(t)[k] == Unflagged(e)[k];
    }
    UnflaggedPut(t, s, cid, u.cell);
  }

  /** Cells that agree with `s` up to flags away from `cid`, with a cell agreeing up to its flag put at `cid`, agree with `s` up to flags. */
  lemma UnflaggedPut(t: CellValues, s: CellValues, cid: CellId, x: CellValue)
    requires t.Keys == s.Keys && cid in s
    requires forall k :: k in s && k != cid ==> t[k].(modified := false) == s[k].(modified := false)
    requires x.(modified := false) == s[cid].(modified := false)
    ensures Unflagged(t[cid := x]) == Unflagged(s)
  {
    assert forall k :: k in s ==> Unflagged(t[cid := x])[k] == Unflagged(s)[k];
  }

  /** One step of the same on journals: after one execute, undo then redo gives the journal back. */
  lemma RedoAfterUndoOne(p: Journal, c: Command, t: Journal)
    requires c.Fresh() || c.cellId in p.cells
    requires t.undo == JExecute(p, c).undo && FlagsCover(t.cells, JExecute(p, c).cells)
    ensures JRedo(JUndo(t)) == t
    ensures JUndo(t).undo == p.undo && FlagsCover(JUndo(t).cells, p.cells)
  {
    UndoThenExecuteCoveredAll(c, p.cells, t.cells);
    var t1 := JUndo(t);
    assert t.undo[..|t.undo| - 1] == p.undo;
    assert t.undo[..|t.undo| - 1] + [t.undo[|t.undo| - 1]] == t.undo;
    assert t1.redo[..|t1.redo| - 1] == t.redo;
  }

  /**
   * From any journal with the undo stack the commands built and cells that cover theirs, undoing
   * `k` and then redoing `k` gives that journal back.
   */
  lemma {:induction false} RedoAfterUndoCovered(j: Journal, cmds: seq<Command>, t: Journal, k: nat)
    requires Replayable(j.cells.Keys, cmds)
    requires k <= |cmds|
    requires t.undo == ExecuteAll(j, cmds).undo && FlagsCover(t.cells, ExecuteAll(j, cmds).cells)
    ensures RedoTimes(UndoTimes(t, k), k) == t
    decreases k
  {
    if k > 0 {
      var pre := cmds[..|cmds| - 1];
      UndoCoveredStep(j, cmds, t);
      RedoAfterUndoCovered(j, pre, JUndo(t), k - 1);
      var u := UndoTimes(JUndo(t), k - 1);
      assert UndoTimes(t, k) == u;
      RedoTimesLast(u, k - 1);
    }
  }

  /** One undo from a journal covering the executions of some commands covers the executions of all but the last, and redo takes it back. */
  lemma UndoCoveredStep(j: Journal, cmds: seq<Command>, t: Journal)
    requires Replayable(j.cells.Keys, cmds)
    requires |cmds| > 0
    requires t.undo == ExecuteAll(j, cmds).undo && FlagsCover(t.cells, ExecuteAll(j, cmds).cells)
    ensures JUndo(t).undo == ExecuteAll(j, cmds[..|cmds| - 1]).undo
    ensures FlagsCover(JUndo(t).cells, ExecuteAll(j, cmds[..|cmds| - 1]).cells)
    ensures JRedo(JUndo(t)) == t
  {
    var n := |cmds|;
    var pre := cmds[..n - 1];
    var p := ExecuteAll(j, pre);
    assert ExecuteAll(j, cmds) == JExecute(p, cmds[n - 1]);
    assert cmds[n - 1].Fresh() || cmds[n - 1].cellId in p.cells;
    RedoAfterUndoOne(p, cmds[n - 1], t);
  }

  /**
   * Undoing `k` of the commands executed and then redoing `k` gives back exactly the state after
   * the commands, for commands fresh from their constructors or whose cells exist.
   */
  lemma UndoRedoTimes(j: Journal, cmds: seq<Command>, k: nat)
    requires forall i :: 0 <= i < |cmds| ==> cmds[i].Fresh() || cmds[i].cellId in j.cells
    requires k <= |cmds|
    ensures RedoTimes(UndoTimes(ExecuteAll(j, cmds), k), k) == ExecuteAll(j, cmds)
  {
    ReplayableAll(j.cells.Keys, cmds);
    RedoAfterUndoCovered(j, cmds, ExecuteAll(j, cmds), k);
  }

  /** Every command is fresh from its constructor or names a cell of `keys`, stated from the last one back. */
  predicate Replayable(keys: set<CellId>, cmds: seq<Command>)
    decreases |cmds|
  {
    |cmds| == 0 || (Replayable(keys, cmds[..|cmds| - 1]) && (cmds[|cmds| - 1].Fresh() || cmds[|cmds| - 1].cellId in keys))
  }

  /** The quantified form of the condition gives the recursive one. */
  lemma {:induction false} ReplayableAll(keys: set<CellId>, cmds: seq<Command>)
    requires forall i :: 0 <= i < |cmds| ==> cmds[i].Fresh() || cmds[i].cellId in keys
    ensures Replayable(keys, cmds)
    decreases |cmds|
  {
    if |cmds| > 0 {
      var pre := cmds[..|cmds| - 1];
      assert forall i :: 0 <= i < |pre| ==> pre[i] == cmds[i];
      ReplayableAll(keys, pre);
    }
  }

  /** Manages the undo/redo history: two stacks of executed commands, top at the end. */
  class CommandHistory {
    var undoStack: seq<Command>
    var redoStack: seq<Command>

    constructor ()
      ensures undoStack == [] && redoStack == []
    {
      undoStack := [];
      redoStack := [];
    }

    /** The history together with the cells it acts on. */
    function State(cells: map<CellId, Cell>): Journal
      reads this, cells.Values
    {
      Journal(undoStack, redoStack, Snapshot(cells))
    }

    method Execute(cmd: Command, cells: map<CellId, Cell>)
      requires KeyedById(cells)
      modifies this, cells.Values
      ensures State(cells) == JExecute(old(State(cells)), cmd)
    {
      var done := ExecuteCommand(cmd, cells);
      ghost var after := Snapshot(cells);
      undoStack, redoStack := undoStack + [done], [];
      assert Snapshot(cells) == after;
    }

    /** Returns whether there was a command to undo. */
    method Undo(cells: map<CellId, Cell>) returns (undone: bool)
      requires KeyedById(cells)
      modifies this, cells.Values
      ensures undone == (|old(undoStack)| > 0)
      ensures State(cells) == JUndo(old(State(cells)))
    {
      if |undoStack| == 0 {
        return false;
      }
      var cmd := undoStack[|undoStack| - 1];
      var done := UndoCommand(cmd, cells);
      ghost var after := Snapshot(cells);
      undoStack, redoStack := undoStack[..|undoStack| - 1], redoStack + [done];
      assert Snapshot(cells) == after;
      return true;
    }

    /** Returns whether there was a command to redo. */
    method Redo(cells: map<CellId, Cell>) returns (redone: bool)
      requires KeyedById(cells)
      modifies this, cells.Values
      ensures redone == (|old(redoStack)| > 0)
      ensures State(cells) == JRedo(old(State(cells)))
    {
      if |redoStack| == 0 {
        return false;
      }
      var cmd := redoStack[|redoStack| - 1];
      var done := ExecuteCommand(cmd, cells);
      ghost var after := Snapshot(cells);
      undoStack, redoStack := undoStack + [done], redoStack[..|redoStack| - 1];
      assert Snapshot(cells) == after;
      return true;
    }

    function CanUndo(): bool
      reads this
    {
      |undoStack| > 0
    }

    function CanRedo(): bool
      reads this
    {
      |redoStack| > 0
    }

    /** The description of the command an undo would revert. */
    function UndoDescription(): (d: Option<string>)
      reads this
      ensures d.None? <==> !CanUndo()
      ensures CanUndo() ==> d == Some(undoStack[|undoStack| - 1].Description())
    {
      if |undoStack| == 0 then None else Some(undoStack[|undoStack| - 1].Description())
    }

    /** The description of the command a redo would repeat. */
    function RedoDescription(): (d: Option<string>)
      reads this
      ensures d.None? <==> !CanRedo()
      ensures CanRedo() ==> d == Some(redoStack[|redoStack| - 1].Description())
    {
      if |redoStack| == 0 then None else Some(redoStack[|redoStack| - 1].Description())
    }

    method Clear()
      modifies this
      ensures undoStack == [] && redoStack == []
    {
      undoStack := [];
      redoStack := [];
    }
  }
}
