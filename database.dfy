/** The layout database: cells by id, the top cell, the layer stack and the undo/redo history. */
module Database {
  import opened Common
  import opened CellModel
  import opened Commands
  import opened Layers

  class LayoutDatabase {
    const id: Uuid
    var name: string
    const layerStack: LayerStack
    var cells: map<CellId, Cell>
    var topCell: Option<CellId>
    /** The history is a field of its own, next to the cell map it acts on. */
    const history: CommandHistory
    /** Nanometres per database unit; carried, not used by the model. */
    var dbuPerNm: real

    /** Each cell is filed under its own id, and a set top cell is one of them. */
    ghost predicate Valid()
      reads this
    {
      && KeyedById(cells)
      && (topCell.Some? ==> topCell.value in cells)
    }

    /** `LayoutDatabase::new` with its fresh id passed in: no cells, no top cell, empty history. */
    constructor (id: Uuid, name: string)
      ensures Valid()
      ensures this.id == id && this.name == name && dbuPerNm == 1.0
      ensures cells == map[] && topCell == None
      ensures fresh(layerStack) && layerStack.layers == []
      ensures fresh(history) && history.undoStack == [] && history.redoStack == []
    {
      this.id := id;
      this.name := name;
      layerStack := new LayerStack();
      cells := map[];
      topCell := None;
      history := new CommandHistory();
      dbuPerNm := 1.0;
    }

    /** Files the cell under its own id (replacing a cell with that id); the first cell added becomes the top cell. */
    method AddCell(cell: Cell) returns (cid: CellId)
      requires Valid()
      modifies this`cells, this`topCell
      ensures Valid()
      ensures cid == cell.id
      ensures cells == old(cells)[cid := cell]
      ensures topCell == if old(topCell).None? then Some(cid) else old(topCell)
      ensures GetCell(cid) == Some(cell)
      ensures CellCount() == old(CellCount()) + (if cid in old(cells) then 0 else 1)
    {
      cid := cell.id;
      cells := cells[cid := cell];
      if topCell.None? {
        topCell := Some(cid);
      }
    }

    function GetCell(cid: CellId): (r: Option<Cell>)
      reads this
      ensures r.Some? <==> cid in cells
      ensures r.Some? ==> r.value == cells[cid]
      ensures Valid() && r.Some? ==> r.value.id == cid
    {
      if cid in cells then Some(cells[cid]) else None
    }

    /** Takes the cell out of the map; the top cell is cleared when it is this one, and no other is promoted. */
    method RemoveCell(cid: CellId) returns (r: Option<Cell>)
      requires Valid()
      modifies this`cells, this`topCell
      ensures Valid()
      ensures r == old(GetCell(cid))
      ensures cells == old(cells) - {cid}
      ensures topCell == if old(topCell) == Some(cid) then None else old(topCell)
      ensures CellCount() == old(CellCount()) - (if cid in old(cells) then 1 else 0)
    {
      if topCell == Some(cid) {
        topCell := None;
      }
      if cid in cells {
        r := Some(cells[cid]);
        cells := cells - {cid};
      } else {
        r := None;
      }
    }

    /** Some cell with the given name, if any; which one is left open, as hash-map order is. */
    method FindCellByName(cellName: string) returns (r: Option<Cell>)
      ensures r.None? <==> forall k :: k in cells ==> cells[k].name != cellName
      ensures r.Some? ==> r.value in cells.Values && r.value.name == cellName
    {
      if exists k :: k in cells && cells[k].name == cellName {
        var k :| k in cells && cells[k].name == cellName;
        r := Some(cells[k]);
      } else {
        r := None;
      }
    }

    function CellCount(): (n: nat)
      reads this
    {
      |cells|
    }

    /** The values of all cells. */
    function Cells(): map<CellId, CellValue>
      reads this, cells.Values
    {
      Snapshot(cells)
    }

    /** Runs the command on the cells and records it, exactly as the history does. */
    method ExecuteCommand(cmd: Command)
      requires Valid()
      modifies history, cells.Values
      ensures Valid()
      ensures history.State(cells) == JExecute(old(history.State(cells)), cmd)
    {
      history.Execute(cmd, cells);
    }

    method Undo() returns (undone: bool)
      requires Valid()
      modifies history, cells.Values
      ensures Valid()
      ensures undone == old(history.CanUndo())
      ensures history.State(cells) == JUndo(old(history.State(cells)))
    {
      undone := history.Undo(cells);
    }

    method Redo() returns (redone: bool)
      requires Valid()
      modifies history, cells.Values
      ensures Valid()
      ensures redone == old(history.CanRedo())
      ensures history.State(cells) == JRedo(old(history.State(cells)))
    {
      redone := history.Redo(cells);
    }

    function CanUndo(): (b: bool)
      reads this, history
      ensures b <==> |history.undoStack| > 0
    {
      history.CanUndo()
    }

    function CanRedo(): (b: bool)
      reads this, history
      ensures b <==> |history.redoStack| > 0
    {
      history.CanRedo()
    }
  }
}
