# opensilicon layout core in Dafny

This project models the core of opensilicon, an IC-layout editor, and proves properties of the model:

- **Geometry kernel**: points, axis-aligned bounding boxes, and the four layout primitives (rectangle, polygon, path, via). Coordinates are exact reals.
- **Cells**: a cell is an object whose geometry list, instance list and pin list are updated in place.
- **Layers and the layer stack**: builders, lookup by id and by GDS number, and visibility.
- **Layout database**: cells keyed by id, plus the command history.
- **Command history**: add, remove and move commands. They execute and undo on the database's cells, and sit on an undo stack and a redo stack.
- **GDSII stream codec**: big-endian integers, padded strings, and excess-64 eight-byte reals. Records are framed by a length and a type.
- **GDSII writer and reader**: the writer appends records to a byte buffer. The reader walks records back into cells, geometries and instances.
- **Frontend conversion**: the flat geometry form that the editor's frontend exchanges with the core. This covers conversion each way, bulk import and export, and geometry removal by index.

Every module is one Dafny file:

| module | file |
|---|---|
| `Common` | `common.dfy` |
| `Geometry` | `geometry.dfy` |
| `CellModel` | `cell.dfy` |
| `Layers` | `layer.dfy` |
| `Commands` | `commands.dfy` |
| `Database` | `database.dfy` |
| `GdsCodec` | `gds_codec.dfy` |
| `GdsWriting` | `gds_writer.dfy` |
| `GdsReading` | `gds_reader.dfy` |
| `GdsRoundTrip` | `gds_roundtrip.dfy` |
| `GdsLibraryFacts` | `gds_library_facts.dfy` |
| `GdsUnits` | `gds_units.dfy` |
| `Frontend` | `frontend.dfy` |

The state-changing parts of the source are Dafny classes, each keeping the fields the Rust type updates:

- `Cell`, `LayerStack`, `LayoutDatabase` and `CommandHistory`;
- `GdsWriter`, with its output buffer;
- `GdsReader`, with its cursor into the bytes.

Each class method is proved against a pure specification function: `ExecutedOn`, `UndoneOn`, `LibBytes`, `ReadLibrary`, `PointsBBox` and others. The lemmas state the source's promises about those functions:

- undo restores what execute changed;
- a written library is read back with one cell per cell written, holding the geometries and named instances that survive, in order, in the unit read back;
- a bounding box is the least box that encloses its points.

`GdsRoundTrip` and `GdsLibraryFacts` prove the writer and the reader against each other. `GdsUnits` covers the database unit that a written library is read back with (see "## Findings").

## Model

| member | source | states |
|---|---|---|
| Geometry.Point.Translate | crates/opensilicon-core/src/geometry.rs:19-24 | the translated point differs from the original by exactly (dx, dy) |
| Geometry.TranslateUndo | crates/opensilicon-core/src/geometry.rs:19-24 | translating by (-dx, -dy) after (dx, dy) gives back the original point |
| Geometry.BBox.Union | crates/opensilicon-core/src/geometry.rs:85-90 | the union encloses both boxes, and is normal when either box is |
| Geometry.NormalBoxHasNonNegativeExtent | crates/opensilicon-core/src/geometry.rs:59-76 | a normal box has non-negative width and height and contains its own centre |
| Geometry.EnclosesContains | crates/opensilicon-core/src/geometry.rs:74-76 | a box enclosing another contains every point the inner one contains (containment is boundary-inclusive) |
| Geometry.UnionIsLeast | crates/opensilicon-core/src/geometry.rs:85-90 | any box that encloses both arguments encloses their union: the union is the least enclosing box |
| Geometry.UnionCommutes | crates/opensilicon-core/src/geometry.rs:85-90 | union is commutative |
| Geometry.IntersectsSymmetric | crates/opensilicon-core/src/geometry.rs:78-83 | the overlap test is symmetric |
| Geometry.IntersectsIffCommonPoint | crates/opensilicon-core/src/geometry.rs:78-83 | two normal boxes intersect if and only if some point lies in both (touching edges count) |
| Geometry.IntersectsExamples | crates/opensilicon-core/src/geometry.rs:279-285 | the unit test's boxes: [0,10]² meets [5,15]² and not [20,30]²; a shared corner counts as overlap |
| Geometry.UnionExample | crates/opensilicon-core/src/geometry.rs:85-90 | a worked union of two overlapping boxes gives their outer corners |
| Geometry.PointsBBox | crates/opensilicon-core/src/geometry.rs:39-57 | the box of a point list is absent exactly for an empty list, and is otherwise normal |
| Geometry.PointsBBoxContains | crates/opensilicon-core/src/geometry.rs:39-57 | every input point lies in the box of the points |
| Geometry.PointsBBoxAttained | crates/opensilicon-core/src/geometry.rs:39-57 | each of the four bounds is the coordinate of some input point, so the box is the tightest one |
| Geometry.FromPoints | crates/opensilicon-core/src/geometry.rs:39-57 | the min/max scan returns the box of the points: none for an empty list, otherwise a normal box containing every point |
| Geometry.Rect.New | crates/opensilicon-core/src/geometry.rs:102-108 | the corners are normalised (lower-left ≤ upper-right on both axes), and the two x values and the two y values are the ones given |
| Geometry.NormalRectExtent | crates/opensilicon-core/src/geometry.rs:110-124 | a normalised rectangle has non-negative width, height and area, and a normal box |
| Geometry.RectNewIdempotent | crates/opensilicon-core/src/geometry.rs:102-108 | building a rectangle from the corners of a normalised one gives the same rectangle |
| Geometry.RectAreaExample | crates/opensilicon-core/src/geometry.rs:273-276 | the unit test's 10 × 5 rectangle has area 50, whichever order its corners are given in |
| Geometry.Expanded | crates/opensilicon-core/src/geometry.rs:169-182 | the expanded point list has two points for each centreline point |
| Geometry.ExpandedSnoc | crates/opensilicon-core/src/geometry.rs:169-182 | appending a centreline point appends its two offset corners to the expanded list |
| Geometry.IncludeExpandedPair | crates/opensilicon-core/src/geometry.rs:169-182 | one scan step over the two offset copies of a point is one scan step over the point itself, in a box grown by half the width |
| Geometry.PointsBBoxExpandedSnoc | crates/opensilicon-core/src/geometry.rs:169-182 | the box of the expanded points after an append, in terms of the box before |
| Geometry.PathBBoxIsGrownCentreline | crates/opensilicon-core/src/geometry.rs:169-182 | the box of the expanded points is the centreline's box grown by \|h\| on every side |
| Geometry.PathBBoxSpec | crates/opensilicon-core/src/geometry.rs:169-182 | a path's box is absent exactly when it has no points; otherwise it is the centreline's box grown by half the absolute width |
| Geometry.Via.BoundingBox | crates/opensilicon-core/src/geometry.rs:222-229 | the via's box is centred on its position and spans exactly its width and height |
| Geometry.GeomPrimitive.BoundingBox | crates/opensilicon-core/src/geometry.rs:242-249 | a primitive has no box exactly when it is a polygon without vertices or a path without points |
| Geometry.GeomPrimitive.LayerId | crates/opensilicon-core/src/geometry.rs:251-258 | the layer of each primitive kind; a via reports its cut layer |
| CellModel.TranslateTransform | crates/opensilicon-core/src/cell.rs:35-40 | the translate placement moves to (x, y) with no rotation, no mirror and unit scale |
| CellModel.RemoveAt | crates/opensilicon-core/src/cell.rs:132-139 | removing position i shortens the list by one, keeps the elements before i and shifts the later ones down |
| CellModel.InsertAt | crates/opensilicon-core/src/commands.rs:79-98 | inserting at i puts the element at i, keeps the elements before it and shifts the later ones up |
| CellModel.InsertRemoveInverse | crates/opensilicon-core/src/commands.rs:79-98 | re-inserting a removed element where it was restores the list, and removing an inserted element restores it too |
| CellModel.RemoveLastUndoesPush | crates/opensilicon-core/src/commands.rs:39-52 | removing the last element undoes a push |
| CellModel.OnLayer | crates/opensilicon-core/src/cell.rs:171-176 | the filtered list holds exactly the geometries drawn on the layer, and no more than the original |
| CellModel.OnLayerAppend | crates/opensilicon-core/src/cell.rs:171-176 | the layer filter distributes over concatenation, so it keeps the original order |
| CellModel.Bboxes | crates/opensilicon-core/src/cell.rs:152-160 | the collected boxes are no more than the geometries, and none are collected exactly when no geometry has a box |
| CellModel.BboxesHasEach | crates/opensilicon-core/src/cell.rs:152-160 | every geometry that has a box contributes it to the collected boxes |
| CellModel.BboxesFromSome | crates/opensilicon-core/src/cell.rs:152-160 | every collected box is the box of some geometry |
| CellModel.UnionAll | crates/opensilicon-core/src/cell.rs:162-168 | folding union over the boxes gives nothing exactly when there are no boxes |
| CellModel.UnionAllEncloses | crates/opensilicon-core/src/cell.rs:162-168 | the folded union encloses each folded box |
| CellModel.UnionAllIsLeast | crates/opensilicon-core/src/cell.rs:162-168 | any box that encloses all the folded boxes encloses the fold, so the fold is the least enclosing box |
| CellModel.Cell.constructor | crates/opensilicon-core/src/cell.rs:116-125 | a new cell has the given id and name, no geometries, no instances, no pins, and is not modified |
| CellModel.Cell.AddGeometry | crates/opensilicon-core/src/cell.rs:127-130 | the geometry is appended and the cell is marked modified; nothing else changes |
| CellModel.Cell.RemoveGeometry | crates/opensilicon-core/src/cell.rs:132-139 | an index in range removes and returns that geometry, shifts the rest down and marks the cell modified; an index out of range returns nothing and changes nothing |
| CellModel.Cell.AddInstance | crates/opensilicon-core/src/cell.rs:141-144 | the instance is appended and the cell is marked modified; nothing else changes |
| CellModel.Cell.AddPin | crates/opensilicon-core/src/cell.rs:146-149 | the pin is appended and the cell is marked modified; nothing else changes |
| CellModel.Cell.LocalBBox | crates/opensilicon-core/src/cell.rs:151-168 | the local box is absent exactly when no geometry has a box, and otherwise encloses the box of every geometry; it is the fold of union over those boxes |
| CellModel.Cell.GeometriesOnLayer | crates/opensilicon-core/src/cell.rs:171-176 | a geometry is in the result if and only if it is in the cell and drawn on the layer |
| CellModel.LocalBBoxExample | crates/opensilicon-core/src/cell.rs:151-168 | the local box of [0,0]-[100,50] and [50,25]-[200,75] is [0,0]-[200,75] |
| Commands.TranslatedShape | crates/opensilicon-core/src/commands.rs:152-177 | translation moves every coordinate by exactly (dx, dy) and keeps everything else: kind, layers, width, via size and point counts |
| Commands.SkeletonAndCoordinatesDetermine | crates/opensilicon-core/src/commands.rs:152-177 | a primitive is fixed by its coordinates together with everything else, so TranslatedShape describes the translated primitive completely |
| Commands.TranslatedCompose | crates/opensilicon-core/src/commands.rs:152-177 | two translations compose into one by the summed offset |
| Commands.TranslatedZero | crates/opensilicon-core/src/commands.rs:152-177 | translating by zero changes nothing |
| Commands.TranslatedUndo | crates/opensilicon-core/src/commands.rs:152-177 | translating by the negated offset undoes a translation |
| Commands.TranslatePoints | crates/opensilicon-core/src/commands.rs:152-177 | the in-place loop over a point list moves each point by (dx, dy) |
| Commands.TranslateGeometry | crates/opensilicon-core/src/commands.rs:152-177 | the in-place translation of one primitive yields the translated primitive |
| Commands.MoveAll | crates/opensilicon-core/src/commands.rs:124-134 | the move loop keeps the number of geometries |
| Commands.TranslatedTimesShift | crates/opensilicon-core/src/commands.rs:124-134 | n + 1 translations are one translation followed by n more |
| Commands.TranslatedTimesUndo | crates/opensilicon-core/src/commands.rs:135-144 | n translations by (-dx, -dy) undo n translations by (dx, dy) |
| Commands.MoveAllPointwise | crates/opensilicon-core/src/commands.rs:124-134 | each geometry is translated once for each occurrence of its index in the list; out-of-range indices are skipped |
| Commands.MoveAllUndoAt | crates/opensilicon-core/src/commands.rs:124-144 | moving back by the negated delta over the same list restores each geometry |
| Commands.MoveAllUndo | crates/opensilicon-core/src/commands.rs:124-144 | moving by the delta and then by its negation, over the same indices, restores the whole geometry list, even with repeated or out-of-range indices |
| Commands.MoveGeometries | crates/opensilicon-core/src/commands.rs:124-134 | the loop over one cell's geometry vector leaves the cell with the moved list and otherwise unchanged |
| Commands.Executed | crates/opensilicon-core/src/commands.rs:39-144 | executing touches only the cell the command names, keeps the set of cells, and keeps the command's cell and description; a missing cell changes nothing |
| Commands.Undone | crates/opensilicon-core/src/commands.rs:46-144 | undoing touches only the cell the command names, keeps the set of cells, and keeps the command's cell and description |
| Commands.ExecuteOn | crates/opensilicon-core/src/commands.rs:39-144 | the three execute bodies on a cell object give the command and cell value of ExecutedOn: add captures the index it pushed at, remove captures the geometry it removed, move translates the listed geometries |
| Commands.UndoOn | crates/opensilicon-core/src/commands.rs:46-144 | the three undo bodies on a cell object give UndoneOn: add removes at the captured index if it is still in range, remove re-inserts the captured geometry (or appends it past the end), move translates back |
| Commands.ExecuteCommand | crates/opensilicon-core/src/commands.rs:39-144 | execute against the database's cell map changes exactly what Executed says, looking up the named cell and doing nothing when it is missing |
| Commands.UndoCommand | crates/opensilicon-core/src/commands.rs:46-144 | undo against the cell map changes exactly what Undone says; a removal's captured geometry is taken even when the cell is missing |
| Commands.ExecuteThenUndoOn | crates/opensilicon-core/src/commands.rs:39-144 | on its cell, undo right after execute restores the cell, except that the modified flag may stay set |
| Commands.UndoThenExecuteOn | crates/opensilicon-core/src/commands.rs:39-144 | on its cell, executing again after an undo repeats the first execution exactly, command and cell |
| Commands.ExecuteThenUndoRestores | crates/opensilicon-core/src/commands.rs:39-144 | undo right after execute gives back every cell, except that the named cell's modified flag may stay set |
| Commands.UndoThenExecuteRepeats | crates/opensilicon-core/src/commands.rs:211-219 | executing again after an undo (a redo) repeats the first execution exactly, for a fresh command or one whose cell exists |
| Commands.Unflagged | crates/opensilicon-core/src/commands.rs:39-144 | clearing the modified flags keeps the set of cells |
| Commands.RestoredUnflagged | crates/opensilicon-core/src/commands.rs:39-144 | cells restored up to the flag are equal to the originals once flags are cleared |
| Commands.OnRespectsFlag | crates/opensilicon-core/src/commands.rs:39-144 | a command does the same to two cells that differ only in the modified flag |
| Commands.UpdateRespectsUnflagged | crates/opensilicon-core/src/commands.rs:39-144 | replacing one cell by values that agree up to the flag keeps agreeing cell maps agreeing |
| Commands.ExecutedRespectsUnflagged | crates/opensilicon-core/src/commands.rs:39-144 | executing on cell maps that agree up to flags gives the same command and agreeing cells |
| Commands.UndoneRespectsUnflagged | crates/opensilicon-core/src/commands.rs:46-144 | undoing on cell maps that agree up to flags gives the same command and agreeing cells |
| Commands.JExecute | crates/opensilicon-core/src/commands.rs:194-199 | execute pushes exactly one command onto the undo stack and clears the redo stack |
| Commands.JUndo | crates/opensilicon-core/src/commands.rs:201-209 | with nothing to undo nothing changes; otherwise the undo stack loses its top and the redo stack gains one command |
| Commands.JRedo | crates/opensilicon-core/src/commands.rs:211-219 | with nothing to redo nothing changes; otherwise the redo stack loses its top and the undo stack gains one command |
| Commands.StackDiscipline | crates/opensilicon-core/src/commands.rs:194-219 | each operation moves exactly one command, updated by running it, between the stacks and leaves the rest of both stacks alone |
| Commands.ExecuteThenUndo | crates/opensilicon-core/src/commands.rs:194-209 | undo right after execute restores the undo stack and the cells (up to the modified flag) and leaves one command to redo |
| Commands.ExecuteUndoRedo | crates/opensilicon-core/src/commands.rs:194-219 | redo right after undo right after execute gives back exactly the state after the execute (`Commands.UndoRedoTimes` states it for k steps) |
| Commands.ExecuteAll | crates/opensilicon-core/src/commands.rs:194-199 | executing a list of commands grows the undo stack by one per command |
| Commands.UndoTimesRespectsUnflagged | crates/opensilicon-core/src/commands.rs:201-209 | undoing n times from states with the same undo stack and agreeing cells keeps them agreeing |
| Commands.UndoAllRestores | crates/opensilicon-core/src/commands.rs:194-209 | undoing as many times as commands were executed gives back the undo stack and the cells of the start (up to modified flags) |
| Commands.RedoTimesLast | crates/opensilicon-core/src/commands.rs:211-219 | redoing n + 1 times is redoing n times and then once more |
| Commands.UndoThenExecuteCovered | crates/opensilicon-core/src/commands.rs:46-144 | undoing a command on a cell that agrees with its executed result up to the modified flag (and is modified where that result is) gives back the first cell up to the flag, and executing again repeats the command and gives back the cell it was undone on |
| Commands.UndoThenExecuteCoveredAll | crates/opensilicon-core/src/commands.rs:201-219 | for a fresh command or one whose cell exists: undoing its executed form on cells that cover the executed cells, then executing it again, gives back that command and those cells, and the undo leaves cells that cover the ones it first ran on |
| Commands.UndoneCovers | crates/opensilicon-core/src/commands.rs:46-144 | undoing a command on cells covering its executed cells leaves cells covering the ones it first ran on |
| Commands.RedoAfterUndoOne | crates/opensilicon-core/src/commands.rs:201-219 | undo then redo from a state whose undo stack ends in a just-executed command gives back that state exactly |
| Commands.RedoAfterUndoCovered | crates/opensilicon-core/src/commands.rs:201-219 | from a state whose undo stack is that of a list of executions, undoing k of them and redoing k gives back the state exactly |
| Commands.UndoCoveredStep | crates/opensilicon-core/src/commands.rs:201-219 | one undo from a state covering the executions of some commands covers the executions of all but the last, and redo takes it back exactly |
| Commands.ReplayableAll | crates/opensilicon-core/src/commands.rs:194-199 | commands that are each fresh or name an existing cell satisfy the condition as stated from the last command back |
| Commands.UnflaggedPut | crates/opensilicon-core/src/commands.rs:46-144 | putting at one id a cell that agrees up to its flag, into cells that agree elsewhere, gives cells that agree up to flags |
| Commands.UndoThenExecuteCoveredIn | crates/opensilicon-core/src/commands.rs:201-219 | the existing-cell case of `Commands.UndoThenExecuteCoveredAll` |
| Commands.PutBack | crates/opensilicon-core/src/commands.rs:201-219 | writing a cell's old value back over a new one gives back the map |
| Commands.UndoRedoTimes | crates/opensilicon-core/src/commands.rs:194-219 | after executing a list of commands that create or name existing cells, undoing k of them (k no more than the list) and then redoing k gives back exactly the state after the executions |
| Commands.CommandHistory.constructor | crates/opensilicon-core/src/commands.rs:187-192 | a new history has both stacks empty |
| Commands.CommandHistory.Execute | crates/opensilicon-core/src/commands.rs:194-199 | the history and the cells after execute are JExecute of those before |
| Commands.CommandHistory.Undo | crates/opensilicon-core/src/commands.rs:201-209 | the result says whether there was a command to undo; the history and cells after are JUndo of those before |
| Commands.CommandHistory.Redo | crates/opensilicon-core/src/commands.rs:211-219 | the result says whether there was a command to redo; the history and cells after are JRedo of those before |
| Commands.CommandHistory.UndoDescription | crates/opensilicon-core/src/commands.rs:229-231 | the description of the top of the undo stack, absent exactly when there is nothing to undo |
| Commands.CommandHistory.RedoDescription | crates/opensilicon-core/src/commands.rs:233-235 | the description of the top of the redo stack, absent exactly when there is nothing to redo |
| Commands.CommandHistory.Clear | crates/opensilicon-core/src/commands.rs:237-240 | both stacks are empty afterwards |
| Common.U32AsI16 | crates/opensilicon-io/src/gds.rs:736 | the `as i16` cast of a layer id keeps it when below 0x8000 and otherwise agrees with it modulo 2^16 |
| Common.I16AsU32 | crates/opensilicon-io/src/gds.rs:377 | the `as u32` cast of a 16-bit layer value keeps a non-negative value and adds 2^32 to a negative one (sign extension) |
| Common.Trunc | crates/opensilicon-io/src/gds.rs:730-733 | the integer part toward zero: within one below a non-negative value and within one above a negative one |
| Common.RealAsI32 | crates/opensilicon-io/src/gds.rs:730-733 | the float-to-`i32` cast truncates toward zero inside the range and saturates at the i32 bounds outside it |
| Common.RealAsU64 | crates/opensilicon-io/src/gds.rs:181 | the float-to-`u64` cast truncates inside the range, gives 0 below it and the largest u64 above it |
| Common.IntegralRealAsI32 | crates/opensilicon-io/src/gds.rs:730-733 | a whole number in the i32 range survives the cast unchanged |
| Database.LayoutDatabase.constructor | crates/opensilicon-core/src/database.rs:31-41 | a new database has the given id and name, no cells, no top cell, an empty layer stack, an empty history and one database unit per nanometre |
| Database.LayoutDatabase.AddCell | crates/opensilicon-core/src/database.rs:45-52 | the cell is filed under its own id, replacing any cell with that id; the first cell added becomes the top cell; the count grows by one unless the id was already present |
| Database.LayoutDatabase.GetCell | crates/opensilicon-core/src/database.rs:54-56 | a cell is found exactly when its id is a key, and the cell found carries that id |
| Database.LayoutDatabase.RemoveCell | crates/opensilicon-core/src/database.rs:62-67 | the cell is taken out and returned if present; the top cell is cleared when it was this one and no other is promoted; the count drops by one exactly when it was present |
| Database.LayoutDatabase.FindCellByName | crates/opensilicon-core/src/database.rs:69-71 | nothing is found exactly when no cell has the name; a cell found is in the database and has the name |
| Database.LayoutDatabase.ExecuteCommand | crates/opensilicon-core/src/database.rs:87-89 | the history and the cells afterwards are JExecute of those before |
| Database.LayoutDatabase.Undo | crates/opensilicon-core/src/database.rs:91-93 | the result says whether there was something to undo; the history and the cells afterwards are JUndo of those before |
| Database.LayoutDatabase.Redo | crates/opensilicon-core/src/database.rs:95-97 | the result says whether there was something to redo; the history and the cells afterwards are JRedo of those before |
| Database.LayoutDatabase.CanUndo | crates/opensilicon-core/src/database.rs:99-101 | true exactly when the undo stack is not empty |
| Database.LayoutDatabase.CanRedo | crates/opensilicon-core/src/database.rs:103-105 | true exactly when the redo stack is not empty |
| Layers.Layer.New | crates/opensilicon-core/src/layer.rs:22-35 | a fresh layer has the given id, name and GDS pair, is visible and selectable, solid mid-grey at opacity 0.7, with no description |
| Layers.Layer.WithColor | crates/opensilicon-core/src/layer.rs:37-40 | the builder sets the colour and changes nothing else |
| Layers.Layer.WithPattern | crates/opensilicon-core/src/layer.rs:42-45 | the builder sets the fill pattern and changes nothing else |
| Layers.Layer.WithDescription | crates/opensilicon-core/src/layer.rs:47-50 | the builder sets the description and changes nothing else |
| Layers.FirstWithId | crates/opensilicon-core/src/layer.rs:108-110 | the index of the first layer with the id: none exactly when no layer has it, and no earlier layer has it |
| Layers.FirstWithGds | crates/opensilicon-core/src/layer.rs:116-120 | the index of the first layer with the GDS (layer, datatype) pair: none exactly when no layer has it, and no earlier layer has it |
| Layers.FirstWithIdAt | crates/opensilicon-core/src/layer.rs:108-110 | a matching index with no match before it is the one the scan finds |
| Layers.Visible | crates/opensilicon-core/src/layer.rs:122-124 | the visible layers are no more than the stack |
| Layers.VisibleMembers | crates/opensilicon-core/src/layer.rs:122-124 | a layer is listed exactly when it is in the stack and visible |
| Layers.VisibleAppend | crates/opensilicon-core/src/layer.rs:122-124 | the visibility filter distributes over concatenation, so stack order is kept |
| Layers.Toggled | crates/opensilicon-core/src/layer.rs:134-138 | toggling keeps the stack's length and every field but visibility, and flips visibility exactly at the first layer with the id |
| Layers.ToggleTwice | crates/opensilicon-core/src/layer.rs:134-138 | toggling the same id twice restores the stack |
| Layers.VisibleAfterSetAll | crates/opensilicon-core/src/layer.rs:140-144 | after showing every layer all are listed as visible; after hiding every layer none is |
| Layers.LayerStack.constructor | crates/opensilicon-core/src/layer.rs:100-102 | a new stack is empty |
| Layers.LayerStack.AddLayer | crates/opensilicon-core/src/layer.rs:104-106 | the layer is appended and the count grows by one |
| Layers.LayerStack.GetLayer | crates/opensilicon-core/src/layer.rs:108-110 | the first layer of the stack with the id; none exactly when no layer has it |
| Layers.LayerStack.GetLayerByGds | crates/opensilicon-core/src/layer.rs:116-120 | the first layer of the stack with the GDS pair; none exactly when no layer has it |
| Layers.LayerStack.VisibleLayers | crates/opensilicon-core/src/layer.rs:122-124 | the result is `Visible(layers)`: exactly the visible layers of the stack, kept in stack order (the order is proved by `Layers.VisibleAppend`) |
| Layers.LayerStack.ToggleVisibility | crates/opensilicon-core/src/layer.rs:134-138 | the scan leaves the stack toggled at the first layer with the id |
| Layers.LayerStack.SetAllVisible | crates/opensilicon-core/src/layer.rs:140-144 | every layer gets the given visibility and nothing else changes |
| Frontend.FromPrimitive | apps/frontend/src-tauri/src/lib.rs:342-372 | the flat record keeps the primitive's layer (a via's cut layer) and tags each kind: a rectangle as its two corners, a polygon as its vertices, a path as its points and width, a via as its position and width |
| Frontend.ToPrimitive | apps/frontend/src-tauri/src/lib.rs:374-396 | a record converts exactly when its tag is known and it has enough points (rect 2, polygon 3, path 2, via 1); the result is on the record's layer; a rectangle's corners take their x and y values from the first two points, normalised; a polygon's vertices and a path's points are the record's points; a via sits at the first point; a missing width defaults to 0.1 for a path and 0.17 for a square via |
| Frontend.RectRoundTrip | apps/frontend/src-tauri/src/lib.rs:342-396 | a rectangle comes back normalised, so a normalised one comes back unchanged |
| Frontend.PolygonRoundTrip | apps/frontend/src-tauri/src/lib.rs:342-396 | a polygon comes back unchanged exactly when it has at least three vertices, and is lost otherwise |
| Frontend.PathRoundTrip | apps/frontend/src-tauri/src/lib.rs:342-396 | a path comes back unchanged exactly when it has at least two points, and is lost otherwise |
| Frontend.ViaRoundTrip | apps/frontend/src-tauri/src/lib.rs:342-396 | a via comes back on its cut layer with a square cut of its width; it is unchanged exactly when its three layers agree and its height equals its width |
| Frontend.RoundTripIffLossless | apps/frontend/src-tauri/src/lib.rs:342-396 | flattening then rebuilding gives back the primitive if and only if the flat form carries it without loss |
| Frontend.Converted | apps/frontend/src-tauri/src/lib.rs:422-428 | the rebuilt primitives are no more than the records |
| Frontend.ConvertedMembers | apps/frontend/src-tauri/src/lib.rs:422-428 | every rebuilt primitive comes from some record, and every convertible record is rebuilt |
| Frontend.Flattened | apps/frontend/src-tauri/src/lib.rs:312-321 | one flat record per primitive |
| Frontend.ExportImportRoundTrip | apps/frontend/src-tauri/src/lib.rs:402-428 | exporting lossless geometry and importing it again gives back the same list, in order (exported by lines 312-321) |
| Frontend.ImportAllGeometries | apps/frontend/src-tauri/src/lib.rs:402-446 | the project name is updated when given; the top cell's geometry becomes exactly the convertible records in order, or a new cell "TOP" holding them is added and becomes the top cell; other cells are untouched; the modified flag is left as it was and no command is recorded |
| Frontend.RefillTop | apps/frontend/src-tauri/src/lib.rs:413-428 | the existing top cell's list is cleared and refilled with the convertible records; nothing else changes |
| Frontend.AddTop | apps/frontend/src-tauri/src/lib.rs:419-428 | a fresh cell "TOP" holding the convertible records is added and becomes the top cell |
| Frontend.AppendConverted | apps/frontend/src-tauri/src/lib.rs:422-428 | the convertible records are pushed onto the cell's list in order, and nothing else changes |
| Frontend.RemoveGeometryIpc | apps/frontend/src-tauri/src/lib.rs:264-277 | a remove command is issued, and reported, exactly when the cell exists and the index is in range; it is then recorded and removes that geometry; otherwise nothing changes |
| GdsCodec.GdsRecord.Kind | crates/opensilicon-io/src/gds.rs:102-105 | the record type is its kind in the high byte followed by its data type tag |
| GdsCodec.GdsRecord.DataTypeTag | crates/opensilicon-io/src/gds.rs:107-109 | the tag is the low byte of the record type |
| GdsCodec.RecordTypeTags | crates/opensilicon-io/src/gds.rs:21-66 | the record types carry the tag of their payload: XY holds 32-bit integers, LAYER 16-bit ones, MAG reals, STRNAME ASCII and ENDEL nothing |
| GdsCodec.Pow256 | crates/opensilicon-io/src/gds.rs:220-248 | a power of 256 is at least 1 |
| GdsCodec.BeBytes | crates/opensilicon-io/src/gds.rs:643-651 | big-endian encoding at width n yields exactly n bytes |
| GdsCodec.BeValue | crates/opensilicon-io/src/gds.rs:220-248 | the big-endian value of n bytes is below 256^n |
| GdsCodec.BeValueOfBytes | crates/opensilicon-io/src/gds.rs:220-248 | encoding a value that fits and decoding gives the value back (written by lines 643-651) |
| GdsCodec.BeBytesOfValue | crates/opensilicon-io/src/gds.rs:220-248 | decoding bytes and encoding at the same width gives the bytes back (written by lines 643-651) |
| GdsCodec.I16Bytes | crates/opensilicon-io/src/gds.rs:653-656 | a 16-bit value is written as two bytes |
| GdsCodec.I32Bytes | crates/opensilicon-io/src/gds.rs:658-661 | a 32-bit value is written as four bytes |
| GdsCodec.I16RoundTrip | crates/opensilicon-io/src/gds.rs:112-117 | a 16-bit value written big-endian in two's complement reads back as itself (written by lines 653-656) |
| GdsCodec.I32RoundTrip | crates/opensilicon-io/src/gds.rs:120-125 | a 32-bit value written big-endian in two's complement reads back as itself (written by lines 658-661) |
| GdsCodec.I16s | crates/opensilicon-io/src/gds.rs:112-117 | a payload reads as one 16-bit value per whole pair of bytes; a trailing odd byte is ignored |
| GdsCodec.I16sBytes | crates/opensilicon-io/src/gds.rs:653-656 | a list of 16-bit values is written as two bytes each |
| GdsCodec.I32s | crates/opensilicon-io/src/gds.rs:120-125 | a payload reads as one 32-bit value per whole four bytes; a trailing partial chunk is ignored |
| GdsCodec.I32sBytes | crates/opensilicon-io/src/gds.rs:658-661 | a list of 32-bit values is written as four bytes each |
| GdsCodec.I16sRoundTrip | crates/opensilicon-io/src/gds.rs:112-117 | a written list of 16-bit values reads back as itself, whatever shorter tail follows (written by lines 653-656) |
| GdsCodec.I32sRoundTrip | crates/opensilicon-io/src/gds.rs:120-125 | a written list of 32-bit values reads back as itself, whatever shorter tail follows (written by lines 658-661) |
| GdsCodec.Utf8 | crates/opensilicon-io/src/gds.rs:663-670 | one to four bytes per character: the code itself below 0x80, otherwise bytes that are all 0x80 or above |
| GdsCodec.StringBytes | crates/opensilicon-io/src/gds.rs:663-670 | a string's bytes are at least as many as its characters |
| GdsCodec.PaddedStringBytes | crates/opensilicon-io/src/gds.rs:663-670 | a string payload is the string's bytes padded with at most one NUL to an even length |
| GdsCodec.Latin1 | crates/opensilicon-io/src/gds.rs:128-131 | each payload byte becomes the character with that code |
| GdsCodec.TrimNul | crates/opensilicon-io/src/gds.rs:128-131 | the result is the longest prefix that does not end in NUL, and only NULs were removed |
| GdsCodec.AsciiBytes | crates/opensilicon-io/src/gds.rs:128-131 | an ASCII string's bytes read back as the string (written by lines 663-670) |
| GdsCodec.StringRoundTrip | crates/opensilicon-io/src/gds.rs:128-131 | an ASCII string that does not end in NUL survives writing and reading (written by lines 663-670) |
| GdsCodec.NonAsciiStringChanges | crates/opensilicon-io/src/gds.rs:128-131 | a non-ASCII character is written as UTF-8 but read back byte by byte, so "é" comes back as two characters (written by lines 663-670) |
| GdsCodec.PackReal8 | crates/opensilicon-io/src/gds.rs:179-192 | a real is packed into eight bytes |
| GdsCodec.UnpackReal8 | crates/opensilicon-io/src/gds.rs:143-158 | unpacking yields an exponent in [-64, 64) and a mantissa below 2^56 |
| GdsCodec.UnpackPack | crates/opensilicon-io/src/gds.rs:143-192 | unpacking recovers the sign, exponent and mantissa whenever they fit the layout |
| GdsCodec.PackUnpack | crates/opensilicon-io/src/gds.rs:143-192 | every eight bytes are the packing of their own fields |
| GdsCodec.Scale16Sign | crates/opensilicon-io/src/gds.rs:143-158 | scaling by a power of 16 keeps a positive value positive and zero zero |
| GdsCodec.Real8ZeroIffNoMantissa | crates/opensilicon-io/src/gds.rs:143-158 | a real reads as zero exactly when its mantissa is zero, and all-zero bytes read as zero |
| GdsCodec.ZeroBytesValue | crates/opensilicon-io/src/gds.rs:161-164 | zero encoded at any width is all zero bytes and decodes to zero |
| GdsCodec.Real8s | crates/opensilicon-io/src/gds.rs:134-139 | a payload reads as one real per whole eight bytes |
| GdsCodec.RealBytes | crates/opensilicon-io/src/gds.rs:161-193 | zero is written as eight zero bytes; any other value has the sign bit set exactly when it is negative, and the exponent and mantissa that the given normalisation finds for its magnitude |
| GdsCodec.Scale16Grows | crates/opensilicon-io/src/gds.rs:171-174 | multiplying a non-negative value by 16 any number of times never makes it smaller |
| GdsCodec.Scale16Shrinks | crates/opensilicon-io/src/gds.rs:175-178 | dividing a non-negative value by 16 any number of times keeps it non-negative and never makes it larger |
| GdsCodec.ScaleDown | crates/opensilicon-io/src/gds.rs:171-174 | the dividing loop only raises the exponent, never past 127; it stops below 1 unless the exponent reached 127, and a value it divided at least once is at least 1/16 |
| GdsCodec.ScaleUp | crates/opensilicon-io/src/gds.rs:175-178 | the multiplying loop only lowers the exponent, never past -64; it stops at 1/16 or more unless the exponent reached -64, and a value it multiplied at least once is below 1 |
| GdsCodec.ScaleDownKeeps | crates/opensilicon-io/src/gds.rs:171-174 | the dividing loop keeps the value: what it ends with, times 16 per step taken, is what it started with |
| GdsCodec.ScaleUpKeeps | crates/opensilicon-io/src/gds.rs:175-178 | the multiplying loop keeps the value: what it ends with, divided by 16 per step taken, is what it started with |
| GdsCodec.NormaliseFrom | crates/opensilicon-io/src/gds.rs:169-181 | both loops, from a starting exponent in [-64, 127], end with an exponent in [-64, 127] and a mantissa that fits 64 bits |
| GdsCodec.LoopsNormalise | crates/opensilicon-io/src/gds.rs:166-192 | packing the sign with the exponent and truncated mantissa where the two loops end gives the bytes of the program's encoding |
| GdsCodec.F64ToGdsReal8 | crates/opensilicon-io/src/gds.rs:161-193 | the two loops and the packing write exactly the eight bytes `RealBytes(value, SourceNormalise)`: zero as zero bytes, the sign bit set for a negative value |
| GdsCodec.DownFrom | crates/opensilicon-io/src/gds.rs:171-174 | from a value j factors of 16 above a fraction in [1/16, 1), the dividing loop takes exactly j steps and ends at that fraction |
| GdsCodec.UpFrom | crates/opensilicon-io/src/gds.rs:175-178 | from a value j factors of 16 below a fraction in [1/16, 1), the multiplying loop takes exactly j steps and ends at that fraction |
| GdsCodec.NormaliseFromForm | crates/opensilicon-io/src/gds.rs:169-181 | a magnitude k/2^56 · 16^e with a 56-bit mantissa k whose top digit is not zero normalises, from a start s, to exponent e + s and mantissa k |
| GdsCodec.PackedValue | crates/opensilicon-io/src/gds.rs:143-158 | eight bytes packed from a sign, an exponent in [-64, 64) and a 56-bit mantissa read back as that signed mantissa over 2^56 times 16 to the exponent |
| GdsCodec.SourceReadsSixteenfold | crates/opensilicon-io/src/gds.rs:170 | with the exponent starting at 1, every non-zero value with an exact form is written one exponent too high and reads back as 16 times itself, so the program's normalisation is exact for none of them |
| GdsCodec.SourceOneExample | crates/opensilicon-io/src/gds.rs:170 | the program writes 1.0 as the bytes 42 10 00 00 00 00 00 00, which read back as 16.0 (the source's own test at lines 843-855 asks for 1.0) |
| GdsCodec.TopDigitBytes | crates/opensilicon-io/src/gds.rs:179-192 | exponent 2 and mantissa 2^52 pack into the bytes 42 10 00 00 00 00 00 00 |
| GdsCodec.CorrectedReal8RoundTrip | crates/opensilicon-io/src/gds.rs:143-193 | with the exponent starting at 0, every value with an exact form (every f64 within the exponent range has one) is found exactly and reads back unchanged; zero always does |
| GdsCodec.MicroNormalised | crates/opensilicon-io/src/gds.rs:694-698 | 1e-6 normalises from a start s to exponent s - 4 and the 56-bit truncation of its fraction |
| GdsCodec.NanoNormalised | crates/opensilicon-io/src/gds.rs:694-698 | 1e-9 normalises from a start s to exponent s - 7 and the 56-bit truncation of its fraction |
| GdsCodec.MicroBack | crates/opensilicon-io/src/gds.rs:694-698 | 1e-6 as the program writes it reads back within one part in a million below 1.6e-5; with the corrected start it reads back within one part in a million below 1e-6 |
| GdsCodec.NanoBack | crates/opensilicon-io/src/gds.rs:694-698 | 1e-9 as the program writes it reads back within one part in a million below 1.6e-8; with the corrected start it reads back within one part in a million below 1e-9 |
| GdsCodec.Real8Negate | crates/opensilicon-io/src/gds.rs:143-158 | setting the sign bit negates the value read |
| GdsCodec.Real8sBytes | crates/opensilicon-io/src/gds.rs:672-678 | a list of reals is written as eight bytes each |
| GdsCodec.Real8sPayload | crates/opensilicon-io/src/gds.rs:672-678 | the loop over the values writes each with `F64ToGdsReal8`, giving exactly `Real8sBytes(values, SourceNormalise)` |
| GdsCodec.Real8sBytesSnoc | crates/opensilicon-io/src/gds.rs:672-678 | one more value appends its own eight bytes |
| GdsCodec.RecordBytes | crates/opensilicon-io/src/gds.rs:643-651 | a record on the wire is its four-byte header followed by its payload |
| GdsCodec.NextRecord | crates/opensilicon-io/src/gds.rs:220-248 | fewer than two bytes left is a clean end; a declared length below 4 is an invalid record; a stream ending inside the header or payload is an I/O error; a record read spans exactly its header and payload |
| GdsCodec.NextRecordSpan | crates/opensilicon-io/src/gds.rs:220-248 | the bytes a record read spans are exactly that record written again (written by lines 643-651) |
| GdsCodec.ReadWrittenRecord | crates/opensilicon-io/src/gds.rs:220-248 | a written record whose length fits 16 bits reads back as itself, whatever precedes or follows it (written by lines 643-651) |
| GdsWriting.Coord | crates/opensilicon-io/src/gds.rs:729-733 | a length in micrometres goes out as its count of nanometres, truncated toward zero, when that count is in the i32 range |
| GdsWriting.PointCoords | crates/opensilicon-io/src/gds.rs:778-782 | the XY list holds two coordinates per point, x then y, each the point's coordinate in database units |
| GdsWriting.ViaRect | crates/opensilicon-io/src/gds.rs:789-801 | a via goes out as a rectangle on its cut layer |
| GdsWriting.BytesAppend | crates/opensilicon-io/src/gds.rs:643-651 | the bytes of two record lists written one after the other are the bytes of the joined list |
| GdsWriting.Join | crates/opensilicon-io/src/gds.rs:643-651 | output followed by two record lists is output followed by their concatenation |
| GdsWriting.Bytes1 | crates/opensilicon-io/src/gds.rs:643-651 | one record on its own is exactly its bytes |
| GdsWriting.Bytes2 | crates/opensilicon-io/src/gds.rs:643-651 | two records are the first record's bytes and then the second's |
| GdsWriting.Bytes3 | crates/opensilicon-io/src/gds.rs:643-651 | three records are the first record's bytes and then the rest |
| GdsWriting.Bytes4 | crates/opensilicon-io/src/gds.rs:643-651 | four records are the first record's bytes and then the rest |
| GdsWriting.Bytes5 | crates/opensilicon-io/src/gds.rs:643-651 | five records are the first record's bytes and then the rest |
| GdsWriting.Bytes6 | crates/opensilicon-io/src/gds.rs:643-651 | six records are the first record's bytes and then the rest |
| GdsWriting.Written2 | crates/opensilicon-io/src/gds.rs:643-651 | two records written in turn append the bytes of the pair |
| GdsWriting.Written4 | crates/opensilicon-io/src/gds.rs:728-745 | four records written in turn append the bytes of the four |
| GdsWriting.Written5 | crates/opensilicon-io/src/gds.rs:728-745 | five records written in turn (a boundary element) append the bytes of the five |
| GdsWriting.Written6 | crates/opensilicon-io/src/gds.rs:770-787 | six records written in turn (a path element) append the bytes of the six |
| GdsWriting.AllCellRecordsPrefix | crates/opensilicon-io/src/gds.rs:635-637 | the records of one more cell extend the records of the cells before it |
| GdsWriting.LibBytes | crates/opensilicon-io/src/gds.rs:629-641 | a library's bytes are those of its opening records, then of its cells, then of ENDLIB |
| GdsWriting.InOrder | crates/opensilicon-io/src/gds.rs:635 | the cell values listed in the given order of ids, one per id |
| GdsWriting.IterationOrder | crates/opensilicon-io/src/gds.rs:635 | an order of the map's ids that lists each exactly once, as hash-map iteration yields them |
| GdsWriting.GdsWriter.constructor | crates/opensilicon-io/src/gds.rs:621-626 | a new writer has no output yet and the fixed date stamp |
| GdsWriting.GdsWriter.WriteRecord | crates/opensilicon-io/src/gds.rs:643-651 | appends the record's 16-bit length (payload plus the 4-byte header, wrapping), its type and its payload |
| GdsWriting.GdsWriter.WriteI16Record | crates/opensilicon-io/src/gds.rs:653-656 | appends a record holding the values as big-endian 16-bit integers |
| GdsWriting.GdsWriter.WriteI32Record | crates/opensilicon-io/src/gds.rs:658-661 | appends a record holding the values as big-endian 32-bit integers |
| GdsWriting.GdsWriter.WriteStringRecord | crates/opensilicon-io/src/gds.rs:663-670 | appends a record holding the string's bytes, padded with a NUL to an even length |
| GdsWriting.GdsWriter.WriteReal8Record | crates/opensilicon-io/src/gds.rs:672-678 | appends a record holding the values as excess-64 eight-byte reals, each as `F64ToGdsReal8` writes it |
| GdsWriting.GdsWriter.WriteRect | crates/opensilicon-io/src/gds.rs:728-745 | appends BOUNDARY, LAYER (the layer as 16 bits), DATATYPE 0, an XY closing the four corners into five points, and ENDEL |
| GdsWriting.GdsWriter.WritePolygon | crates/opensilicon-io/src/gds.rs:747-768 | appends a BOUNDARY whose XY lists the vertices, closed by repeating the first one |
| GdsWriting.GdsWriter.WritePath | crates/opensilicon-io/src/gds.rs:770-787 | appends PATH, LAYER, DATATYPE 0, WIDTH in database units, the points' XY, and ENDEL |
| GdsWriting.GdsWriter.WriteVia | crates/opensilicon-io/src/gds.rs:789-801 | appends the rectangle of the via's extent on its cut layer |
| GdsWriting.GdsWriter.WriteStrans | crates/opensilicon-io/src/gds.rs:809-814 | appends STRANS with only the mirror bit when mirrored, STRANS 0 when rotated or scaled, and nothing otherwise |
| GdsWriting.GdsWriter.WriteMag | crates/opensilicon-io/src/gds.rs:816-818 | appends MAG with the scale exactly when the scale is not 1 |
| GdsWriting.GdsWriter.WriteAngle | crates/opensilicon-io/src/gds.rs:820-822 | appends ANGLE with the rotation exactly when the rotation is not 0 |
| GdsWriting.GdsWriter.WriteSref | crates/opensilicon-io/src/gds.rs:803-830 | appends SREF, SNAME, the optional STRANS, MAG and ANGLE, the offset's XY in database units, and ENDEL |
| GdsWriting.GdsWriter.WriteGeometry | crates/opensilicon-io/src/gds.rs:710-715 | appends the records of the primitive's kind |
| GdsWriting.GdsWriter.WriteGeometries | crates/opensilicon-io/src/gds.rs:708-716 | appends the records of every geometry of a cell, in order |
| GdsWriting.GdsWriter.WriteSrefs | crates/opensilicon-io/src/gds.rs:718-721 | appends the records of every instance of a cell, in order |
| GdsWriting.GdsWriter.WriteCell | crates/opensilicon-io/src/gds.rs:700-726 | appends BGNSTR with the date stamp, STRNAME, every geometry, every instance, and ENDSTR |
| GdsWriting.GdsWriter.WriteLibHead | crates/opensilicon-io/src/gds.rs:680-698 | appends HEADER 600, BGNLIB with the date stamp, LIBNAME, and UNITS holding the unit in user units and in metres |
| GdsWriting.GdsWriter.WriteCells | crates/opensilicon-io/src/gds.rs:635-637 | appends the structures of the given cells, one after the other |
| GdsWriting.GdsWriter.Write | crates/opensilicon-io/src/gds.rs:629-641 | writes the whole library, with every cell of the map exactly once in some order, and reports that order |
| GdsReading.XyPoints | crates/opensilicon-io/src/gds.rs:386-393 | an XY payload gives one point per whole 8-byte pair of coordinates, a trailing partial pair dropped |
| GdsReading.ScanElement | crates/opensilicon-io/src/gds.rs:367-398 | an element scan that succeeds ends between where it started and the end of the stream |
| GdsReading.ScanElementStep | crates/opensilicon-io/src/gds.rs:367-398 | a record other than ENDEL is gathered and the element scan goes on after it |
| GdsReading.ScanElementEnd | crates/opensilicon-io/src/gds.rs:367-398 | ENDEL, or the end of the stream, ends the element scan with what was gathered |
| GdsReading.DropClosing | crates/opensilicon-io/src/gds.rs:400-403 | the outline is unchanged, or it had more than one vertex, the last repeated the first, and only that last one is dropped |
| GdsReading.BoxRect | crates/opensilicon-io/src/gds.rs:575-582 | the rectangle is on the given layer, spans exactly the bounding box of the points and contains every one of them |
| GdsReading.BoundaryGeometry | crates/opensilicon-io/src/gds.rs:400-421 | no geometry exactly when no vertex is left after dropping the closing one; otherwise one on the element's layer: a rectangle exactly when the vertices are an axis-aligned four-vertex outline, and then the rectangle spanning exactly their bounding box; else a polygon with exactly those vertices |
| GdsReading.BoxGeometry | crates/opensilicon-io/src/gds.rs:567-582 | no geometry exactly when the box has no vertex; otherwise a rectangle on its layer spanning exactly the bounding box of its vertices, the closing one dropped |
| GdsReading.PathGeometry | crates/opensilicon-io/src/gds.rs:464-470 | no geometry exactly when the path has no point; otherwise a path with the layer, points and width read |
| GdsReading.ElementAt | crates/opensilicon-io/src/gds.rs:327-346 | reading a BOUNDARY, PATH or BOX element that succeeds ends within the stream, after where it started |
| GdsReading.ScanSref | crates/opensilicon-io/src/gds.rs:478-518 | an SREF scan that succeeds ends within the stream, after where it started |
| GdsReading.ScanSrefStep | crates/opensilicon-io/src/gds.rs:478-517 | a record other than ENDEL is applied and the SREF scan goes on after it |
| GdsReading.ScanSrefEnd | crates/opensilicon-io/src/gds.rs:478-518 | ENDEL, or the end of the stream, ends the SREF scan with what was gathered |
| GdsReading.SrefInstance | crates/opensilicon-io/src/gds.rs:520-531 | no instance exactly when the SREF has no name; otherwise an instance named after it, with a nil cell link and the transform read, placed at the XY position |
| GdsReading.SkipToEndel | crates/opensilicon-io/src/gds.rs:585-596 | skipping to ENDEL ends within the stream, after where it started |
| GdsReading.StructureItem | crates/opensilicon-io/src/gds.rs:322-355 | a structure record never changes the id of the cell being read and never hands out an id twice |
| GdsReading.ScanStructure | crates/opensilicon-io/src/gds.rs:313-360 | reading a structure keeps the cell's id, only moves the id counter forward, and ends within the stream |
| GdsReading.AddCellValue | crates/opensilicon-core/src/database.rs:45-52 | filing a cell adds exactly its id to the map, with that cell under it, and makes it the top cell when there was none |
| GdsReading.LibItem | crates/opensilicon-io/src/gds.rs:278-307 | a library record never removes a cell, and ends within the stream |
| GdsReading.ScanLib | crates/opensilicon-io/src/gds.rs:271-311 | reading the library records never removes a cell |
| GdsReading.HeaderAt | crates/opensilicon-io/src/gds.rs:250-269 | a stream too short for a record is an invalid record at offset 0; a record other than HEADER is an unexpected record that names HEADER as the one expected; on success the first record was a HEADER and reading goes on after it |
| GdsReading.ReadLibrary | crates/opensilicon-io/src/gds.rs:211-218 | a library reads only when the stream opens with a HEADER |
| GdsReading.ScanStructureEnd | crates/opensilicon-io/src/gds.rs:316-356 | ENDSTR, or the end of the stream, ends the structure with the cell as gathered |
| GdsReading.ScanLibEnd | crates/opensilicon-io/src/gds.rs:272-308 | ENDLIB, or the end of the stream, ends the library with the database as it is |
| GdsReading.SnapshotPut | crates/opensilicon-core/src/database.rs:45-52 | filing a cell in the map changes the database's values at that cell's id only |
| GdsReading.GdsReader.constructor | crates/opensilicon-io/src/gds.rs:203-208 | a reader starts at the beginning of the stream with a database unit of 1 nm |
| GdsReading.GdsReader.ReadRecord | crates/opensilicon-io/src/gds.rs:220-248 | reads exactly the record the stream holds at the cursor (its length, type and payload) and moves past it; a truncated stream, or a length below 4, is an error |
| GdsReading.GdsReader.ReadHeader | crates/opensilicon-io/src/gds.rs:250-269 | succeeds and moves past the first record exactly when the stream opens with a HEADER, with the errors HeaderAt names otherwise |
| GdsReading.GdsReader.PushXy | crates/opensilicon-io/src/gds.rs:388-393 | appends exactly the XY payload's points, scaled by the database unit |
| GdsReading.GdsReader.ReadBoundary | crates/opensilicon-io/src/gds.rs:362-422 | returns exactly the boundary's geometry (or none, or the error) and stops right after its ENDEL |
| GdsReading.GdsReader.ReadPath | crates/opensilicon-io/src/gds.rs:424-471 | returns exactly the path's geometry (or none, or the error) and stops right after its ENDEL |
| GdsReading.GdsReader.ReadBox | crates/opensilicon-io/src/gds.rs:534-583 | returns exactly the box's rectangle (or none, or the error) and stops right after its ENDEL |
| GdsReading.GdsReader.ReadSref | crates/opensilicon-io/src/gds.rs:473-532 | returns exactly the SREF's instance (or none, or the error), stops right after its ENDEL, and uses a fresh id only for an instance it returns |
| GdsReading.GdsReader.SkipElement | crates/opensilicon-io/src/gds.rs:585-596 | moves past the next ENDEL, or to the end of the stream |
| GdsReading.GdsReader.ReadItem | crates/opensilicon-io/src/gds.rs:322-355 | a structure record changes the cell and the cursor exactly as its specification does |
| GdsReading.GdsReader.ReadCellBody | crates/opensilicon-io/src/gds.rs:316-356 | reads the records up to ENDSTR into the cell exactly as the structure scan specifies |
| GdsReading.GdsReader.ReadStructure | crates/opensilicon-io/src/gds.rs:313-360 | files the cell read into the database (top cell if there was none); on an error the database's cells and top cell are unchanged |
| GdsReading.GdsReader.FileCell | crates/opensilicon-io/src/gds.rs:358 | adding the cell files it under its id, the database staying well formed |
| GdsReading.GdsReader.SetLibName | crates/opensilicon-io/src/gds.rs:282-285 | LIBNAME renames the database and changes nothing else |
| GdsReading.GdsReader.SetUnits | crates/opensilicon-io/src/gds.rs:286-296 | UNITS with two values or more sets the database unit to the first value times 10^6; fewer leaves it |
| GdsReading.GdsReader.ReadLibItem | crates/opensilicon-io/src/gds.rs:278-307 | a library record changes the database and the cursor exactly as its specification does |
| GdsReading.GdsReader.ReadLib | crates/opensilicon-io/src/gds.rs:271-311 | reads the library records into the database exactly as the library scan specifies, keeping it well formed |
| GdsReading.GdsReader.Read | crates/opensilicon-io/src/gds.rs:211-218 | returns a fresh, well-formed database named "imported" holding exactly what the stream specifies, or the error |
| GdsRoundTrip.ReadHeld | crates/opensilicon-io/src/gds.rs:220-248 | where a record's bytes are written, reading a record gives back exactly that record and moves past its bytes (written by lines 643-651) |
| GdsRoundTrip.HoldsReads | crates/opensilicon-io/src/gds.rs:220-248 | records written one after another are read back one by one, ending exactly where their bytes end (written by lines 643-651) |
| GdsRoundTrip.ReadFirst | crates/opensilicon-io/src/gds.rs:220-248 | a list of records read back starts with its first record, and the rest are read after it |
| GdsRoundTrip.ReadHead | crates/opensilicon-io/src/gds.rs:220-248 | records followed by more are read first record first, then the rest followed by the same |
| GdsRoundTrip.ReadStep | crates/opensilicon-io/src/gds.rs:220-248 | reading a list of records goes on after its first one when that one is read |
| GdsRoundTrip.ReadEmpty | crates/opensilicon-io/src/gds.rs:220-248 | a record without payload is read back as a 4-byte record (written by lines 643-651) |
| GdsRoundTrip.ReadSplit | crates/opensilicon-io/src/gds.rs:220-248 | reading two lists one after the other splits where the first list's records end |
| GdsRoundTrip.ScanElementReads | crates/opensilicon-io/src/gds.rs:367-398 | the element scan over records read up to ENDEL gathers exactly those records and stops right after ENDEL |
| GdsRoundTrip.ElementReadsStep | crates/opensilicon-io/src/gds.rs:367-398 | a record read inside an element is gathered and the element scan goes on after it |
| GdsRoundTrip.ElementBodyNoEndel | crates/opensilicon-io/src/gds.rs:728-787 | the records written inside an element never include ENDEL |
| GdsRoundTrip.GeometryRecordsShape | crates/opensilicon-io/src/gds.rs:728-787 | a written geometry is its opening record (PATH for a path, BOUNDARY otherwise), its body, and ENDEL |
| GdsRoundTrip.LayerRecordBack | crates/opensilicon-io/src/gds.rs:374-378 | a layer written as 16 bits reads back as that value widened with sign extension (written at line 736) |
| GdsRoundTrip.WidthRecordBack | crates/opensilicon-io/src/gds.rs:444-448 | a written WIDTH value reads back unchanged (written at line 776) |
| GdsRoundTrip.ElementGathered | crates/opensilicon-io/src/gds.rs:362-471 | what the reader gathers from a written geometry is its layer as 16 bits, its XY as points in the reading unit, and a path's width (written by lines 728-787) |
| GdsRoundTrip.ElementPointCount | crates/opensilicon-io/src/gds.rs:386-393 | the written XY reads back as one point per coordinate pair, and is empty exactly when the geometry has no bounding box (written by lines 739-782) |
| GdsRoundTrip.ElementBackPresent | crates/opensilicon-io/src/gds.rs:405-407 | a written geometry comes back exactly when it has a bounding box: an empty polygon or path is lost (written by lines 747-787) |
| GdsRoundTrip.ElementBackLayer | crates/opensilicon-io/src/gds.rs:374-378 | a geometry that comes back is on its layer cut to 16 bits and widened with sign extension, so a layer below 0x8000 is kept (written at line 736) |
| GdsRoundTrip.RectBack | crates/opensilicon-io/src/gds.rs:728-745 | a rectangle goes out as a closed five-point outline of ten coordinates and always comes back, on its layer when that is below 0x8000 (read by lines 401-419) |
| GdsRoundTrip.ElementAtReads | crates/opensilicon-io/src/gds.rs:327-346 | an element the writer wrote reads back as ElementBack of the geometry, stopping right after its ENDEL |
| GdsRoundTrip.ElementAtOk | crates/opensilicon-io/src/gds.rs:327-346 | an element whose records scan successfully becomes the geometry its kind makes of them |
| GdsRoundTrip.ScanStructureStep | crates/opensilicon-io/src/gds.rs:316-356 | the structure scan goes on from where the element the next record opens ends |
| GdsRoundTrip.ScanGeometryReads | crates/opensilicon-io/src/gds.rs:327-346 | one written geometry, read inside a structure, adds what comes back of it to the cell (written by lines 708-716) |
| GdsRoundTrip.ScanElementItem | crates/opensilicon-io/src/gds.rs:327-336 | an element opened inside a structure adds what reading it makes to the cell |
| GdsRoundTrip.ScanGeometriesReads | crates/opensilicon-io/src/gds.rs:316-356 | a cell's written geometries, read inside a structure, add what comes back of each, in order (written by lines 708-716) |
| GdsRoundTrip.SrefBodyNoEndel | crates/opensilicon-io/src/gds.rs:806-826 | the records written inside an SREF never include ENDEL |
| GdsRoundTrip.SrefRecordsShape | crates/opensilicon-io/src/gds.rs:803-830 | a written instance is SREF, its body, and ENDEL |
| GdsRoundTrip.ScanSrefReads | crates/opensilicon-io/src/gds.rs:478-518 | the SREF scan over records read up to ENDEL applies exactly those records and stops right after ENDEL |
| GdsRoundTrip.SrefReadsStep | crates/opensilicon-io/src/gds.rs:478-518 | a record read inside an SREF is applied and the scan goes on after it |
| GdsRoundTrip.ScanSrefItem | crates/opensilicon-io/src/gds.rs:337-341 | an SREF inside a structure adds the instance it makes, with the next fresh id |
| GdsRoundTrip.ScanInstanceReads | crates/opensilicon-io/src/gds.rs:337-341 | one written instance, read inside a structure, adds what comes back of it (written by lines 803-830) |
| GdsRoundTrip.GatherSrefAllAppend | crates/opensilicon-io/src/gds.rs:478-518 | applying the records of an SREF in two parts is applying them all |
| GdsRoundTrip.Real8sOne | crates/opensilicon-io/src/gds.rs:134-139 | one real written as an eight-byte real reads back as the value of those eight bytes (written by lines 672-678) |
| GdsRoundTrip.StransBack | crates/opensilicon-io/src/gds.rs:488-493 | the written STRANS reads back as the mirror flag: set exactly when the instance was mirrored (written by lines 809-814) |
| GdsRoundTrip.MagBack | crates/opensilicon-io/src/gds.rs:494-499 | MAG, written only when the scale is not 1, reads back as the written real; otherwise the scale stays (written by lines 816-818) |
| GdsRoundTrip.AngleBack | crates/opensilicon-io/src/gds.rs:500-505 | ANGLE, written only when the rotation is not 0, reads back as the written real; otherwise the rotation stays (written by lines 820-822) |
| GdsRoundTrip.PositionBack | crates/opensilicon-io/src/gds.rs:506-514 | the written XY pair reads back as the position, in the reading unit (written by lines 824-826) |
| GdsRoundTrip.SrefGathered | crates/opensilicon-io/src/gds.rs:473-518 | what the reader gathers from a written instance: its name, its mirror flag, scale and rotation as written, its offset in the reading unit (written by lines 803-830) |
| GdsRoundTrip.TransformBackSource | crates/opensilicon-io/src/gds.rs:488-505 | as the program writes reals, the mirror flag comes back, while a MAG other than 1 and an ANGLE other than 0 with exact forms come back 16 times larger (written by lines 809-822) |
| GdsRoundTrip.TransformBackCorrected | crates/opensilicon-io/src/gds.rs:488-505 | with the corrected encoder, a placement whose scale and rotation have exact forms reads back as written, offset aside (written by lines 809-822) |
| GdsRoundTrip.InstanceBack | crates/opensilicon-io/src/gds.rs:520-531 | a written instance comes back exactly when its name is not empty; it then keeps its name, takes the fresh id, loses its cell link (nil id), and is placed at its offset in the reading unit (written by lines 803-830) |
| GdsRoundTrip.ScanInstancesReads | crates/opensilicon-io/src/gds.rs:316-356 | a cell's written instances, read inside a structure, add what comes back of each, in order, each with the next fresh id (written by lines 718-721) |
| GdsRoundTrip.CellRecordsShape | crates/opensilicon-io/src/gds.rs:700-726 | a written cell is BGNSTR with the date stamp, then STRNAME, its geometries, its instances and ENDSTR |
| GdsRoundTrip.ScanNameItem | crates/opensilicon-io/src/gds.rs:323-326 | STRNAME read inside a structure names the cell |
| GdsRoundTrip.ScanCellReads | crates/opensilicon-io/src/gds.rs:313-360 | a written cell read as a structure after its BGNSTR gives the named cell with what comes back of its geometries and instances, and stops after ENDSTR (written by lines 700-726) |
| GdsRoundTrip.ScanLibStep | crates/opensilicon-io/src/gds.rs:272-308 | the library scan goes on from where the structure the next record opens ends |
| GdsRoundTrip.LibStructureItem | crates/opensilicon-io/src/gds.rs:297-299 | BGNSTR in the library reads a structure into a fresh unnamed cell and files it |
| GdsRoundTrip.ScanCellItem | crates/opensilicon-io/src/gds.rs:297-299 | one written cell, read inside the library, files the cell read back (written by lines 700-726) |
| GdsRoundTrip.ScanCellFresh | crates/opensilicon-io/src/gds.rs:313-360 | a written cell read into the fresh cell the library starts for it gives the cell read back |
| GdsRoundTrip.CellReadIs | crates/opensilicon-io/src/gds.rs:313-314 | the cell read back from a written one starts as a fresh unnamed cell with the next id |
| GdsRoundTrip.ScanLibStructure | crates/opensilicon-io/src/gds.rs:297-299 | BGNSTR in the library: the scan goes on after the structure with its cell filed |
| GdsRoundTrip.ScanCellsReads | crates/opensilicon-io/src/gds.rs:271-311 | written cells, read inside the library one after another, are filed in the order written (written by lines 635-637) |
| GdsRoundTrip.ScanLibSkip | crates/opensilicon-io/src/gds.rs:279-306 | a library record other than ENDLIB, LIBNAME, UNITS and BGNSTR changes nothing |
| GdsRoundTrip.ScanLibName | crates/opensilicon-io/src/gds.rs:282-285 | LIBNAME names the library with its string as read |
| GdsRoundTrip.ScanLibUnits | crates/opensilicon-io/src/gds.rs:286-296 | UNITS with two values or more sets the unit to its first value times a million |
| GdsRoundTrip.LibItemPlain | crates/opensilicon-io/src/gds.rs:278-307 | a library record other than BGNSTR reads nothing further |
| GdsRoundTrip.UnitBackNear | crates/opensilicon-io/src/gds.rs:286-296 | the unit read back from the written UNITS is between 15.999984 and 16 as the program writes reals, and between 0.999999 and 1 with the corrected encoder, never the 0.001 written (written by lines 694-698) |
| GdsRoundTrip.ScanHeadReads | crates/opensilicon-io/src/gds.rs:279-296 | after HEADER, the written BGNLIB, LIBNAME and UNITS name the library and set its unit (written by lines 684-698) |
| GdsRoundTrip.ReadFirstThree | crates/opensilicon-io/src/gds.rs:220-248 | three records read back are the three given, one after the other |
| GdsRoundTrip.ScanLibHead | crates/opensilicon-io/src/gds.rs:279-296 | BGNLIB, LIBNAME and UNITS read one after another name the library and set its unit |
| GdsRoundTrip.ScanLibReads | crates/opensilicon-io/src/gds.rs:271-311 | a library read from its records files every written cell, in order, and ENDLIB ends it |
| GdsRoundTrip.LibraryRoundTrip | crates/opensilicon-io/src/gds.rs:858-878 | reading a written library gives a database named as written, with the unit from UNITS, holding exactly the cells read back in the order written |
| GdsRoundTrip.WrittenReads | crates/opensilicon-io/src/gds.rs:220-248 | the bytes of records that fit the 16-bit length read back as those records, to the end of the bytes (written by lines 643-651) |
| GdsRoundTrip.LibRecordsSplit | crates/opensilicon-io/src/gds.rs:629-641 | a library's records are its opening records, then its cells' records, then ENDLIB |
| GdsRoundTrip.ReadLibraryReads | crates/opensilicon-io/src/gds.rs:211-218 | a stream that reads as a library's records reads back as the library the reader makes of them |
| GdsLibraryFacts.GeometriesBackKept | crates/opensilicon-io/src/gds.rs:327-346 | reading a cell's written geometries appends the ones that come back, in order, and changes nothing else but the modified flag (written by lines 708-716) |
| GdsLibraryFacts.WithGeometryKept | crates/opensilicon-core/src/cell.rs:127-130 | adding one more geometry that comes back extends the kept ones by it |
| GdsLibraryFacts.KeptAll | crates/opensilicon-io/src/gds.rs:401-470 | geometries that all have a bounding box all come back, one for one and in order, each on its layer when that is below 0x8000 (written by lines 728-787) |
| GdsLibraryFacts.KeptAtMost | crates/opensilicon-io/src/gds.rs:405-466 | no more geometries come back than were written |
| GdsLibraryFacts.InstancesBackIds | crates/opensilicon-io/src/gds.rs:520-531 | reading written instances adds one instance per named one, in order, with consecutive fresh ids and no cell link, and leaves the rest of the cell alone |
| GdsLibraryFacts.InstancesBackCount | crates/opensilicon-io/src/gds.rs:520-531 | reading written instances adds one instance, and uses one fresh id, per named one |
| GdsLibraryFacts.InstancesBackAppends | crates/opensilicon-io/src/gds.rs:337-341 | reading instances only appends to the cell's instances and sets its modified flag; the instances before are kept |
| GdsLibraryFacts.InstancesBackNumbered | crates/opensilicon-io/src/gds.rs:520-531 | the instances added are numbered on from the next fresh id and linked to no cell |
| GdsLibraryFacts.InstancesBackGrows | crates/opensilicon-io/src/gds.rs:337-341 | reading instances never hands an id back and keeps the cell's id |
| GdsLibraryFacts.InstancesBackKeeps | crates/opensilicon-io/src/gds.rs:337-341 | reading instances leaves the cell's name and geometries alone |
| GdsLibraryFacts.CellReadIds | crates/opensilicon-io/src/gds.rs:313-314 | a cell read in the library takes the next fresh id, and its instances the ones after it |
| GdsLibraryFacts.CellReadHolds | crates/opensilicon-io/src/gds.rs:313-360 | a cell read back has its fresh id, the name written (when that is ASCII without a trailing NUL), and exactly the written geometries that come back, in order (written by lines 700-726) |
| GdsLibraryFacts.CellReadInstances | crates/opensilicon-io/src/gds.rs:337-341 | a cell read back has one instance per named written instance, numbered from the id after the cell's and linked to no cell (written by lines 718-721) |
| GdsLibraryFacts.CellReadFilled | crates/opensilicon-io/src/gds.rs:313-346 | a cell read back is the named cell with the kept geometries, with its instances read after |
| GdsLibraryFacts.CellsBackFiles | crates/opensilicon-io/src/gds.rs:271-311 | reading written cells files each under an id of its own: one cell per written cell, the first becoming the top cell of a library without one, the name and unit left alone |
| GdsLibraryFacts.WrittenLibraryHolds | crates/opensilicon-io/src/gds.rs:858-878 | a library written and read back reads without error, holds one cell per cell written, the first one written as its top cell, keeps its name, and, as the program writes reals, has a unit of about 16 where the writer's own unit is 0.001 |
| GdsUnits.CoordBack | crates/opensilicon-io/src/gds.rs:729-733 | a whole-nanometre length is written as its count of nanometres and read back as that count of the reading unit (read as at line 447) |
| GdsUnits.CoordsBack | crates/opensilicon-io/src/gds.rs:824-826 | a whole-nanometre point is written and read back as its counts of nanometres, each taken in the reading unit (read as at lines 389-392) |
| GdsUnits.XyPointsAt | crates/opensilicon-io/src/gds.rs:386-393 | the i-th point read from an XY payload is its i-th coordinate pair, scaled |
| GdsUnits.PointCoordsBack | crates/opensilicon-io/src/gds.rs:452-457 | the i-th written point reads back as its written coordinates, scaled (written by lines 778-782) |
| GdsUnits.PointsCoordsBack | crates/opensilicon-io/src/gds.rs:452-457 | written points come back one for one as their written coordinates, scaled (written by lines 778-782) |
| GdsUnits.WholeNmPointsBack | crates/opensilicon-io/src/gds.rs:452-457 | whole-nanometre points read back are the points multiplied by a thousand times the reading unit (written by lines 778-782) |
| GdsUnits.PathElementBack | crates/opensilicon-io/src/gds.rs:424-471 | a written path comes back on its layer, with its points and width read back (written by lines 770-787) |
| GdsUnits.PathBack | crates/opensilicon-io/src/gds.rs:424-471 | a written whole-nanometre path comes back with every coordinate and its width multiplied by a thousand times the reading unit (written by lines 770-787) |
| GdsUnits.WrittenPathMagnified | crates/opensilicon-io/src/gds.rs:286-296 | with the unit the reader takes from the writer's UNITS, every written path comes back between 15999.984 and 16000 times larger (UNITS written by lines 694-698) |
| GdsUnits.WrittenPathExample | crates/opensilicon-io/src/gds.rs:286-296 | a path through (1, 0.5) of width 0.1 written and read back has its point's x at 15999.984 or more (UNITS written by lines 694-698) |
| GdsUnits.UnitFromUnits | crates/opensilicon-io/src/gds.rs:286-296 | the unit taken from UNITS is the second value (the database unit in metres) in micrometres, or the unit as it was with fewer than two values |
| GdsUnits.CorrectedUnitNear | crates/opensilicon-io/src/gds.rs:694-698 | the corrected reading rule gives back about 16 nm as the program writes reals, and the writer's own 1 nm, to within one part in a million, with the corrected encoder |
| GdsUnits.ReaderOnlyCorrectedPath | crates/opensilicon-io/src/gds.rs:286-296 | with only the reading rule corrected, a written path still comes back between 15.999984 and 16 times larger (path written by lines 770-787) |
| GdsUnits.CorrectedPathRoundTrip | crates/opensilicon-io/src/gds.rs:286-296 | with the reading rule and the encoder corrected, a written path comes back where it was, to within one part in a million (path written by lines 770-787) |

## Left out

- Floating point: coordinates, widths, scales and angles are exact reals. Rounding of `f64` arithmetic, NaN, infinities and signed zero are not modelled. So `is_axis_aligned_rect` compares values, not bit patterns (`to_bits`).
- The rounding of `f64_to_gds_real8`'s inputs: its two loops run on exact reals, where dividing and multiplying by 16 are exact, as they are in IEEE arithmetic away from the subnormal range. A literal such as 1e-6 is taken as the exact decimal, not as the nearest `f64`. The exact-form lemmas (`GdsCodec.HasForm`) cover every value whose magnitude is a 56-bit mantissa times a power of 16, which includes every `f64` in the format's range.
- The writer's `as i32` casts are modelled as truncation toward zero, saturating at the 32-bit bounds. The `as i16` cast of a layer id is modelled as wrap-around to 16 bits. The reader's widening back to 32 bits is modelled as sign extension.
- GdsWriting.Coord: states the cast only in the 32-bit range. Beyond it the function saturates, as Rust's cast does, and `Common.RealAsI32` states that.
- Stream I/O: the reader works on a byte sequence with a cursor, and the writer on an output byte sequence. `Read`, `Seek`, `Write` and the text of `io::Error` are not modelled. An I/O failure is one `Io` error value; the only one the model can produce is a record cut short by the end of the stream.
- Error messages and `log::info!` calls: the errors keep their kind, offset and record types, not their text. Nothing is logged.
- Fresh UUIDs: `Uuid` is a natural number and the nil UUID is 0. The reader hands out fresh ids from a counter. `Cell::new` and the frontend's "TOP" cell take their id as a parameter.
- HashMap iteration order: `all_cells` is any order that lists every id exactly once (`GdsWriting.IterationOrder`). `find_cell_by_name` returns some matching cell.
- The date stamp of BGNLIB and BGNSTR is the writer's fixed constant.
- Instance links after reading: an SREF comes back linked to the nil id, as in the source. The source promises to resolve the link once the whole library is loaded, but no code does so; the model has no such step either.
- `LayoutDatabase::execute_command`, `undo` and `redo` pass the database itself to its own history. In Dafny the history is a separate object field, and the commands act on the database's cell map.
- `Transform::apply`, `Point::distance_to`, `Path::length` and `LayerColor::to_f32_array`: trigonometry, square roots and `f32` conversion.
- `to_json` and `from_json` (serialisation through serde), `cell_names`, `all_cells` as a public iterator, `get_cell_mut` and `get_layer_mut`: these borrow helpers add nothing beyond `GetCell` and `GetLayer`.
- The spatial index (an R-tree from a library), the viewport and renderer, design-rule checking, the project file and the data-only structs are not part of this model.
- The Tauri commands other than geometry import, export and removal, the `Mutex` around the application state, and file dialogs are not part of this model.
- Frontend.ImportAllGeometries: the frontend's records are taken as already decoded from JSON.
- GdsReading.GdsReader.ReadRecord: a declared length that runs past the end of the stream is an `Io` error, as `read_exact` reports it. The seek offset of an `InvalidRecord` is the position right after the length field.
- GdsRoundTrip.LibraryRoundTrip and the lemmas under it assume each record is short enough for its 16-bit length (`Fits`). A longer record's length wraps around in the source, as `GdsWriting.GdsWriter.WriteRecord` states, and is not read back.
- GdsLibraryFacts.CellReadHolds and GdsRoundTrip.InstanceBack: a name survives writing and reading only when it is ASCII and does not end in NUL. Other names are stated as read (`AsString` of the written bytes), not as written.

## Findings

| source | as written | input that shows it | evidently intended | confidence | as-written member | corrected member |
|---|---|---|---|---|---|---|
| crates/opensilicon-io/src/gds.rs:170 | `f64_to_gds_real8` starts its exponent at 1. The loops then stop with a fraction in [1/16, 1) one exponent too high, so every non-zero value is written as 16 times itself. | 1.0 is written as 42 10 00 00 00 00 00 00, which the reader (lines 143-158) gives back as 16.0; the round-trip test at lines 843-855 expects 1.0 | start the exponent at 0, so the fraction times 16 to the exponent is the value | not executed | GdsCodec.SourceReadsSixteenfold | GdsCodec.CorrectedReal8RoundTrip |
| crates/opensilicon-io/src/gds.rs:286-296 | The reader sets the database unit to the first UNITS value times 10^6. The writer puts the database unit in user units there (1e-6, gds.rs:694-698), so a library written by `GdsWriter` is read back with a unit of about 1 µm instead of 1 nm, before the encoder's factor of 16. | a path through (1, 0.5) µm of width 0.1 µm, written and read back: its point comes back at x ≥ 15999.984 µm | take the second UNITS value, the database unit in metres, times 10^6 (the comment on that line says "meters to μm") | not executed | GdsUnits.WrittenPathExample | GdsUnits.CorrectedPathRoundTrip |

The encoder is modelled as written: `GdsCodec.F64ToGdsReal8` runs the source's two loops from exponent 1 and is proved to write `RealBytes(value, SourceNormalise)`. The writer uses it for every real. `GdsCodec.SourceReadsSixteenfold` shows that each value with an exact form reads back as 16 times itself, and `GdsCodec.CorrectedReal8RoundTrip` shows that the same loops started at 0 give every such value back unchanged. `GdsCodec.CorrectedNormalise` is that corrected start.

The reader model (`GdsReading.LibItem`, `GdsReading.GdsReader.SetUnits`) keeps the unit rule as written, so it describes the reader that exists. The two faults compound:

- as written, `GdsUnits.WrittenPathMagnified` states that every written path comes back between 15999.984 and 16000 times larger;
- with only the reading rule corrected (`GdsUnits.UnitFromUnits`, `GdsUnits.CorrectedUnitBack`), `GdsUnits.ReaderOnlyCorrectedPath` states that it still comes back about 16 times larger;
- with both corrected, `GdsUnits.CorrectedPathRoundTrip` proves that a written path comes back where it was, to within one part in a million.

The element functions of the reader take the unit as a parameter, so these lemmas apply the same reader functions with each unit.
