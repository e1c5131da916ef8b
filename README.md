# Winnie editing engine in Dafny

This project models the editing engine of Winnie, a visual form designer. It covers two parts.

- **The editor** (`src/model.js`). The designer keeps a scene tree:
  - an ordered `forest` of root widgets;
  - each container's ordered `children`, with parent links;
  - the `widgets` index from names to nodes.

  Every change is recorded as an edit with a redo and an undo, in a linear history of `edits` with a cursor:
  - `edit` runs the redo, drops the redo tail, appends the edit and evicts the oldest edits beyond `undoDepth`;
  - `undo` and `redo` walk the cursor back and forth.

  The edits are:
  - `move`, the reparenting rule, and the explorer's three drop handlers that call it;
  - adding a widget, with its default-name search;
  - renaming a widget;
  - removing the selection;
  - editing a property;
  - a resize;
  - a multi-item move.

  `decorate` chooses the resize handles for the selected widget.

  In the scene tree, a node is *attached* when it sits in the forest or in its parent's children. This is not the toolkit's page attachment, which the model does not track (see "## Left out").
- **The geometry** (`src/location-size.js`):
  - size/location snapshots and their restore;
  - the eight resize-handle transforms;
  - grid snapping;
  - the multi-item move (start, proceed, end);
  - the `mouseDrag` pointer state machine.

## Layout

| File | Module | Contents |
|---|---|---|
| `wrappers.dfy` | `Wrappers` | `Option`, standing for `null`/`undefined` |
| `jsarray.dfy` | `JsArray` | JavaScript `indexOf`, `splice(i, 1)`, `splice(i, 0, x)` (start normalisation written out), `reverse` |
| `names.dfy` | `Names` | the default-name search of `addWidget`; the identifier rule of rename |
| `geometry.dfy` | `Geometry` | the toolkit widget (`Delegate` class), snapshots, handles, snapping, proceeding a multi-item move |
| `gesture.dfy` | `Gesture` | `mouseDrag` as a class with the closure's four variables as fields |
| `scene.dfy` | `SceneTree` | the scene tree as a value; parent walks and `isParent`; what `move` decides; the move command and its proofs |
| `removal.dfy` | `Removal` | the command `removeSelected` records and its order-independence |
| `commands.dfy` | `Commands` | all recorded commands; what "applied" and "not applied" mean for each; undo/redo round trips |
| `editor.dfy` | `Editor` | the `Winnie` class: the history, `edit`/`undo`/`redo`, `move` and the drops, add, rename, remove, property, resize, multi-item move, `decorate`, `clear` |

### How the model is built

- **Nodes.** Node objects are ids into the editor's `nodes` map. A node record holds:
  - name;
  - kind (a container with its pane layout, a data grid, a grid column, or another widget);
  - capacity (`full`);
  - parent and children;
  - the toolkit `Delegate`.
- **Containers.** A container's `add(w, i)` and `remove(i)` splice its children like the forest array. They set or clear the moved child's parent link.
- **Commands.** Commands are a datatype.
  - Their effect on the scene is a pure function (`RedoOn`/`UndoOn`).
  - Their effect on delegates is run by the editor's `RunRedo`/`RunUndo` methods.
- **History.** The class keeps, as ghost state, the scene before and after each edit.
  - `History` states that edits below the cursor are applied (`Done`) and the others are not (`Undone`).
  - It states that every scene is well formed: links agree, names are indexed, and the scene is acyclic by a ranking.
  - Every editor operation the source exposes (`Edit`, `Undo`, `Redo`, `Move`, the drops, `AddWidget`, `Rename`, `RemoveSelected`, `SetProperty`, `EndResize`, `EndItemsMove`, `Clear`) requires and keeps `Valid()`. Their internal steps need less: `RunRedo`/`RunUndo` only require the edit to be runnable, and `Push`/`Store`/`Evict` take a consistent `History` and re-establish `Valid()`.
  - `Undo` and `Redo` are proved to move exactly one step along this chain.

### Two behaviours worth knowing

- **Drop order.** Both `onDropBefore` and `onDropAfter` reverse the dragged list before moving it (`src/model.js:178-196`).
- **Zero-displacement release.** `endItemsMove` records an edit whenever its item list is non-empty. The test for a release without displacement sits in its caller (`src/model.js:348-349`).

## Model

| member | source | states |
|---|---|---|
| JsArray.IndexOf | src/model.js:112 | the first index holding `x`; -1 exactly when `x` is absent |
| JsArray.SpliceStart | src/model.js:123 | the start `splice` uses: a start within the array is kept, a negative one counts from the end, and the result never exceeds the length |
| JsArray.RemoveAt | src/model.js:123 | `splice(i, 1)`: at the normalised start the element is dropped and the rest shift down; a start past the end leaves the array alone |
| JsArray.InsertAt | src/model.js:128 | `splice(i, 0, x)`: `x` sits at the normalised start, the rest shift up, length grows by one |
| JsArray.RemoveInserted | src/model.js:125-137 | removing at `i` what was inserted at `i` gives back the array |
| JsArray.InsertRemoved | src/model.js:120-142 | re-inserting a removed element at its old index gives back the array |
| JsArray.RemoveNotFoundDropsLast | src/model.js:453-454 | `splice(-1, 1)` with a not-found index drops the last element |
| JsArray.Reverse | src/model.js:532 | `reverse()`: element `i` of the result is element `n-1-i` of the input |
| Names.LowerFirst | src/model.js:297 | the first character lower-cased, the rest kept, same length |
| Names.Candidate | src/model.js:298-302 | attempt 0 is the base, attempt `k` the base followed by `k` in decimal; `CandidateInjective` and `CandidateIsIdentifier` state its properties |
| Names.Decimal | src/model.js:301 | the decimal text of the attempt counter: digits only, at least one |
| Names.DecimalInjective | src/model.js:301 | different counters give different texts |
| Names.CandidateInjective | src/model.js:298-302 | no name is tried twice |
| Names.CandidatesBound | src/model.js:300-302 | a map holding the first `n` candidates has at least `n` keys, so the search ends |
| Names.FreeName | src/model.js:297-302 | the name found is not a key; it is attempt `k`; every earlier attempt was taken |
| Names.CandidateIsIdentifier | src/model.js:297-302 | a default name built from an identifier base is itself an identifier |
| Names.IsIdentifier | src/model.js:415 | the rename pattern: an ASCII letter or `_`, then any number of ASCII letters, `_` or digits; `IdentifierExamples` checks it on examples |
| Names.IdentifierExamples | src/model.js:415 | the rename pattern accepts `a`, `_x9` and rejects `1bad`, `a-b` and the empty name |
| Geometry.SizeLocationSnapshot | src/location-size.js:83-98 | the snapshot holds the delegate's box and its six anchor strings |
| Geometry.ApplySizeLocationSnapshot | src/location-size.js:100-107 | writes exactly the six anchor strings; box and properties unchanged; restoring the subject's own snapshot changes nothing |
| Geometry.ApplySnapshots | src/location-size.js:318-320 | every subject ends with the anchors of the last snapshot applied to it; nothing else changes |
| Geometry.Delegate.SetBounds | src/location-size.js:117-120 | a box write through the toolkit setter: the box becomes the one written and the anchors become the setter's restyling of the old anchors for that box; properties unchanged |
| Geometry.Restyled | src/location-size.js:117-120 | reference definition of a run of box writes: the setter's restyling applied to each box in write order; `RestyledSnoc` and `RestyledConcat` split it |
| Geometry.Resized | src/location-size.js:114-257 | the box a handle's drag leaves, handle by handle; `ResizedEdges` states which edges each handle moves and keeps |
| Geometry.HandleSteps | src/location-size.js:116-253 | the boxes a handle's successive field assignments pass through, in the source's order; the last one is `Resized` |
| Geometry.ResizedEdges | src/location-size.js:114-257 | left-edge handles keep the right edge, top-edge handles keep the bottom edge, right/bottom handles grow the size by the delta, and no handle touches a field outside its edges |
| Geometry.Round | src/location-size.js:285-295 | `Math.round(v / g)` for integers: half rounds up; `SnapIsNearestGridPoint` states its meaning |
| Geometry.Snap | src/location-size.js:285-295 | `Math.round(v / g) * g`: the nearest grid point, by `SnapIsNearestGridPoint` |
| Geometry.SnapIf | src/location-size.js:285-295 | `snapX`/`snapY`: the snapped value when snapping is asked for, the value itself otherwise. The editor's only call, `proceedItemsMove(self, start, diff)` at src/model.js:340, passes no `snap`, so the editor's item drag never snaps |
| Geometry.DragHandle | src/location-size.js:116-253 | each handle's drag writes the box fields it owns, from the pointer-down snapshot, through the box setters and in the source's order: the box ends at `Resized`, the anchors are what the setter made of the boxes `HandleSteps` lists; properties untouched |
| Geometry.DragLeftTop | src/location-size.js:117-120 | the left-top handler writes left, top, width, height in that order, each from the pointer-down snapshot plus the pointer delta, through the setters: the box ends at `Resized(LeftTop, …)`, the anchors are the setter's fold over `HandleSteps(LeftTop, …)` |
| Geometry.DragLeftMiddle | src/location-size.js:138-139 | the left-middle handler writes left, width in that order, each from the pointer-down snapshot plus the pointer delta, through the setters: the box ends at `Resized(LeftMiddle, …)`, the anchors are the setter's fold over `HandleSteps(LeftMiddle, …)` |
| Geometry.DragLeftBottom | src/location-size.js:157-159 | the left-bottom handler writes left, width, height in that order, each from the pointer-down snapshot plus the pointer delta, through the setters: the box ends at `Resized(LeftBottom, …)`, the anchors are the setter's fold over `HandleSteps(LeftBottom, …)` |
| Geometry.DragMiddleTop | src/location-size.js:177-178 | the middle-top handler writes top, height in that order, each from the pointer-down snapshot plus the pointer delta, through the setters: the box ends at `Resized(MiddleTop, …)`, the anchors are the setter's fold over `HandleSteps(MiddleTop, …)` |
| Geometry.DragMiddleBottom | src/location-size.js:196 | the middle-bottom handler writes height in that order, each from the pointer-down snapshot plus the pointer delta, through the setters: the box ends at `Resized(MiddleBottom, …)`, the anchors are the setter's fold over `HandleSteps(MiddleBottom, …)` |
| Geometry.DragRightTop | src/location-size.js:214-216 | the right-top handler writes top, width, height in that order, each from the pointer-down snapshot plus the pointer delta, through the setters: the box ends at `Resized(RightTop, …)`, the anchors are the setter's fold over `HandleSteps(RightTop, …)` |
| Geometry.DragRightMiddle | src/location-size.js:234 | the right-middle handler writes width in that order, each from the pointer-down snapshot plus the pointer delta, through the setters: the box ends at `Resized(RightMiddle, …)`, the anchors are the setter's fold over `HandleSteps(RightMiddle, …)` |
| Geometry.DragRightBottom | src/location-size.js:252-253 | the right-bottom handler writes width, height in that order, each from the pointer-down snapshot plus the pointer delta, through the setters: the box ends at `Resized(RightBottom, …)`, the anchors are the setter's fold over `HandleSteps(RightBottom, …)` |
| Geometry.SnapIsNearestGridPoint | src/location-size.js:285-295 | a snapped value is a multiple of the pitch and within half a pitch of the value |
| Geometry.SnapKeepsGridPoint | src/location-size.js:285-295 | a value on the grid is left where it is |
| Geometry.SnapIdempotent | src/location-size.js:285-295 | snapping twice equals snapping once |
| Geometry.AlignedMoveIsExact | src/location-size.js:297-305 | grid-aligned items dragged by a grid-aligned delta land exactly on start + delta, snapped or not |
| Geometry.StartSnapshots | src/location-size.js:275-281 | one start snapshot per item the toolkit reports attached and inside an anchors container (`Item.attached`, `Item.inAnchors`), each of the item's current state |
| Geometry.StartSnapshotsCover | src/location-size.js:275-281 | every movable item of the list takes part in the gesture |
| Geometry.StartSnapshotsMovable | src/location-size.js:275-281 | exactly one start snapshot per movable item of the list (the filter `MovableItems`, defined independently from the back), in the list's order, each the item's current snapshot |
| Geometry.MovableItemsCons | src/location-size.js:275 | the filter seen from the front: the first item when it is attached in an anchors container, then the filtered rest |
| Geometry.StartItemsMove | src/location-size.js:268-282 | the whole selection when the selection holds the picked node (by node, as `isSelected` compares wrappers by identity), otherwise the picked item alone, filtered to movable items |
| Geometry.MoveItem | src/location-size.js:297-305 | item `i`: `left` written through the setter only when `dx != 0`, `top` only when `dy != 0`, each as the snapped start + delta (`ItemMoved`, `ItemSteps`); every position of the list holding that delegate sees the new placement (`ProceedStep`) |
| Geometry.ProceedItemsMove | src/location-size.js:284-308 | the delegates' boxes and anchors are `Proceeded`: every item's writes applied in list order, a later item holding the same delegate writing over an earlier one; properties unchanged |
| Geometry.Proceeded | src/location-size.js:297-305 | reference definition of the `forEach` over the items: the placements after the first `n` items' writes, one `ProceedStep` per item in list order |
| Geometry.ItemSteps | src/location-size.js:297-305 | the boxes one item's writes pass through: one per moved axis, left first; the last is `ItemMoved` |
| Geometry.ProceededCoherent | src/location-size.js:297-307 | positions holding the same delegate keep holding the same placement after any number of items |
| Geometry.ProceededUntouched | src/location-size.js:297-307 | a delegate none of the first `n` items holds keeps its placement |
| Geometry.ProceededLast | src/location-size.js:297-307 | the last item holding a delegate decides its placement: that item's writes on the placement before it |
| Geometry.ProceededKeeps | src/location-size.js:297-307 | widths and heights never change, and neither does an axis the pointer did not move on |
| Geometry.ProceededMoved | src/location-size.js:297-307 | a moved axis of a delegate ends at the snapped start + delta of the last item holding it |
| Geometry.ProceededDistinct | src/location-size.js:297-307 | with no delegate twice in the gesture, each item's delegate ends at exactly its own item's writes |
| Gesture.MouseDrag.constructor | src/location-size.js:35-38 | no gesture in progress, no pointer-down data |
| Gesture.MouseDrag.MouseDown | src/location-size.js:45-74 | a button-0 press records the pointer position and `onBegin`'s state and starts the gesture; any other button changes nothing |
| Gesture.MouseDrag.MouseMove | src/location-size.js:66-71 | while dragging, delivers the pointer-down state and `client - mouseDownAt`; otherwise nothing |
| Gesture.MouseDrag.MouseUp | src/location-size.js:51-63 | releases both listeners and delivers the pointer-down state and the final difference; without a gesture nothing happens |
| Gesture.MouseDrag.Dragging | src/location-size.js:50-51 | a gesture is in progress exactly while the document's `mouseup` listener is installed |
| Gesture.ResizeGesture | src/location-size.js:114-124 | press, drag, release on a handle: the box is the handle's transform of the pointer-down box, the anchors are what the setters made of the boxes written, and the release hands back that snapshot and the difference |
| SceneTree.IsParent | src/model.js:96-101 | true exactly when `parent` is a proper ancestor of `child` |
| SceneTree.Accepts | src/model.js:104-107 | the kind rule of `move`: a container takes widgets, a grid or a grid column takes grid columns |
| SceneTree.Decide | src/model.js:104-116 | the verdict of `move`'s checks in the source's order; `DecideFits` and `DecidedFits` state what a passing verdict guarantees |
| SceneTree.MoveRedo | src/model.js:119-129 | the move's redo: remove `w` from its source holder at `removeAt`, then add it to `dest` at `addAt`; `MoveEffect` and `MoveRoundTrip` state its meaning |
| SceneTree.MoveUndo | src/model.js:133-147 | the move's undo: remove `w` from `dest` at `addAt`, then add it back to the source at `removeAt`; `MoveRoundTrip` proves it restores the scene |
| SceneTree.RankedIsAcyclic | src/model.js:108-109 | a ranked scene has no node among its own ancestors |
| SceneTree.DetachEffect | src/model.js:120-124 | removing from a holder changes only that array and the removed child's parent link |
| SceneTree.AttachEffect | src/model.js:125-129 | adding to a holder changes only that array and the added child's parent link |
| SceneTree.Detach | src/model.js:120-124 | reference definition of `source.remove(removeAt)` / `forest.splice(removeAt, 1)`: the holder array spliced at the index, with JavaScript's start clamping, and the removed child's parent link cleared; `DetachEffect` states what it changes |
| SceneTree.Attach | src/model.js:125-129 | reference definition of `dest.add(w, addAt)` / `forest.splice(addAt, 0, w)`: `w` inserted into the holder array at the index, its parent link set to the destination; `AttachEffect` states what it changes |
| SceneTree.Holder | src/model.js:112 | the array a node is looked up in: the parent's children, or the forest when there is no parent |
| SceneTree.Full | src/model.js:111 | a container is full when it has a capacity and at least that many children |
| SceneTree.MoveSteps | src/model.js:119-147 | the four arrays a move and its undo pass through, and `w` at `addAt` in the destination |
| SceneTree.MoveRoundTrip | src/model.js:119-147 | the move's undo restores the scene exactly |
| SceneTree.MovedArrayFacts | src/model.js:119-129 | after a move, each array holds no duplicates and holds `w` exactly when it is the destination |
| SceneTree.MoveEffect | src/model.js:119-129 | the scene after a move, node by node: arrays moved, only `w`'s parent changed, names untouched |
| SceneTree.MoveKeepsLinked | src/model.js:119-129 | a move keeps parent links and arrays in agreement |
| SceneTree.MoveKeepsNamed | src/model.js:119-129 | a move keeps the name index |
| SceneTree.MoveKeepsAttached | src/model.js:119-129 | a node attached after a move was attached before it |
| SceneTree.MoveKeepsAttachedForward | src/model.js:119-129 | every attached node stays attached after a move |
| SceneTree.MoveKeepsRanking | src/model.js:108-129 | with the destination not below `w`, lifting `w`'s subtree above `dest` ranks the moved scene, so it stays acyclic |
| SceneTree.MoveKeepsWellFormed | src/model.js:104-129 | a move that passed the checks keeps the scene well formed |
| SceneTree.DecideFits | src/model.js:103-116 | when `move` decides to move, its source is `w`'s parent, its indexes fit the scene, `dest` is not below `w`, and the move is no no-op |
| SceneTree.DecidedFits | src/model.js:112-116 | the removal index from `indexOf` and the destination index lowered past it fit the scene |
| SceneTree.MoveScene | src/model.js:103-168 | `move` keeps the node set and the name index |
| SceneTree.MoveGrowsDestination | src/model.js:125-129 | the destination grows by one, or keeps its length on a move within itself |
| Removal.RemoveStep | src/model.js:502-510 | one action's redo keeps the node set and the action's node and parent |
| Removal.UndoStep | src/model.js:511-520 | one action's undo keeps the node set |
| Removal.RedoChain | src/model.js:526-530 | the command's redo keeps the node set and changes only the actions' indexes |
| Removal.UndoChain | src/model.js:531-535 | the command's undo keeps the node set |
| Removal.RemoveUndo | src/model.js:531-535 | the command's undo runs the actions' undos in reversed order and stores the reversed array; `UndoAfterRedo` proves it restores the scene |
| Removal.FilterOut | src/model.js:502-510 | the reference definition of a removal: exactly the elements not in the set remain, and an array without repeats stays without repeats |
| Removal.RemovedScene | src/model.js:502-510 | reference definition of the scene after removing a set of nodes: every array without them, their own parent links cleared, their names dropped from the index |
| Removal.FilterOutCompose | src/model.js:526-530 | filtering out one set and then another equals filtering out both |
| Removal.RemoveAtIsFilterOut | src/model.js:503-507 | removing a node at its index filters it out of a duplicate-free array |
| Removal.StepIsRemoved | src/model.js:502-510 | one action's redo removes its node and nothing else |
| Removal.StepWidgets | src/model.js:509 | one action's redo drops exactly its node's name from the index |
| Removal.RemovedCompose | src/model.js:526-530 | removing one set of nodes then another equals removing both at once |
| Removal.RemovedKeepsWellFormed | src/model.js:502-510 | removing attached nodes keeps links, index and ranking, and keeps every other node attached under its parent |
| Removal.RemovedDetaches | src/model.js:502-510 | the removed nodes are detached and their names unregistered |
| Removal.RemovedKeepsReady | src/model.js:526-530 | once the first node is removed, the remaining actions still find their nodes attached under their recorded parents |
| Removal.StepKeepsReady | src/model.js:526-530 | after the first action runs, the remaining actions can still run |
| Removal.RedoIsRemoved | src/model.js:526-530 | in whatever order the actions run, the redo removes exactly their nodes |
| Removal.RedoIgnoresIndexes | src/model.js:502-503 | the redo depends on the actions' nodes and parents, not on the indexes a previous run stored |
| Removal.StepUndone | src/model.js:502-520 | one action's undo restores the scene its redo started from |
| Removal.UndoChainAppend | src/model.js:531-535 | undoing one more action after a chain is the chain's undo followed by that action's |
| Removal.UndoAfterRedo | src/model.js:524-535 | undoing the actions in reverse array order restores the scene exactly |
| Commands.AddRoundTrip | src/model.js:443-459 | the add's undo restores the scene exactly |
| Commands.AddRedo | src/model.js:445-450 | the add's redo: the new node pushed onto the forest and registered under its name; `AddKeepsWellFormed` and `AddRoundTrip` state its meaning |
| Commands.AddUndo | src/model.js:451-458 | the add's undo: the name unregistered and the node spliced out of the forest at its index |
| Commands.AddKeepsWellFormed | src/model.js:445-450 | the add keeps the scene well formed |
| Commands.RenameRoundTrip | src/model.js:417-433 | the rename's undo restores the scene exactly |
| Commands.RenameRedo | src/model.js:419-425 | the rename's redo: the index entry moved from the old name to the new one, the node renamed |
| Commands.RenameUndo | src/model.js:426-432 | the rename's undo: the index entry moved back and the old name restored |
| Commands.RenameKeepsWellFormed | src/model.js:419-425 | the rename keeps the scene well formed |
| Commands.RedoOfUndone | src/model.js:590-598 | redoing an edit that is not applied reaches the recorded scene and leaves the edit applied |
| Commands.UndoOfDone | src/model.js:604-612 | undoing an applied edit returns to the scene before it and leaves it not applied |
| Commands.RedoOn | src/model.js:593 | the redo of each command on the scene, and the command as its redo leaves it; `RedoOfUndone` states its meaning |
| Commands.UndoOn | src/model.js:608 | the undo of each command on the scene; `UndoOfDone` states its meaning |
| Commands.ReadyReversed | src/model.js:532 | reversing the action array in place keeps the command runnable on the same nodes |
| Commands.SetProp | src/model.js:809-813 | the key gets the new value (an undefined value removes it); no other key changes |
| Commands.SetPropRoundTrip | src/model.js:808-830 | writing back the value read before a property change restores the properties |
| Commands.Lookup | src/model.js:809 | the value a property edit reads before writing: the key's value, or none when the key is absent |
| Editor.HistoryRecord | src/model.js:614-621 | recording an applied edit at the cursor drops exactly the redo tail and keeps the history consistent |
| Editor.RecordKeepsStates | src/model.js:614-621 | the states a recording keeps, and the new one, stay well formed |
| Editor.RecordKeepsDone | src/model.js:614-621 | the edits a recording keeps, and the new one, stay applied |
| Editor.HistoryShift | src/model.js:622-626 | shifting out the oldest edit, with the cursor lowered by one, keeps the history consistent |
| Editor.Evicted | src/model.js:622-626 | the last `undoDepth` edits of a history, or all of them when there are fewer |
| Editor.EvictedAppend | src/model.js:616-626 | evicting before appending keeps what evicting after appending keeps |
| Editor.EvictedKeepsLast | src/model.js:616-626 | with room for one edit, the edit just appended survives eviction as the last one |
| Editor.RecordsChain | src/model.js:614-627 | recording one run of edits and then another is recording the two runs one after the other |
| Editor.HistoryUndo | src/model.js:604-612 | stepping back over the edit before the cursor keeps the history consistent |
| Editor.HistoryRedo | src/model.js:590-598 | stepping forward over the edit at the cursor keeps the history consistent |
| Editor.DoneElsewhere | src/model.js:590-612 | replacing one edit leaves the applied edits at other positions applied |
| Editor.UndoneElsewhere | src/model.js:590-612 | replacing one edit leaves the pending edits at other positions pending |
| Editor.RecordedIsDone | src/model.js:614-615 | the edit as recorded after its redo (a property edit with the old value it read) is applied |
| Editor.UndoAtCursor | src/model.js:604-612 | undoing the edit before the cursor gives back the previous scene |
| Editor.RedoAtCursor | src/model.js:590-598 | redoing the edit at the cursor gives back the next scene |
| Editor.MoveRecorded | src/model.js:117-150 | a move that fits is a not-yet-applied edit whose result is well formed |
| Editor.MoveRedoEffect | src/model.js:119-129 | `w` ends under `dest`, every other parent link is kept, attached nodes stay attached |
| Editor.MoveSceneEffect | src/model.js:103-168 | `move` either moves `w` under `dest` or leaves the scene equal, keeping every other parent link and attachment |
| Editor.MoveSceneKeepsRecords | src/model.js:103-168 | `move` changes no node's name, kind, capacity or delegate |
| Editor.Dragged | src/model.js:172-174 | contains the dragged node `w`; it is the selection when `w` is selected, otherwise `w` alone, so it holds only selected nodes besides `w` |
| Editor.Dropped | src/model.js:171-196 | a run of drops keeps the node set and the name index |
| Editor.DropEdits | src/model.js:171-196 | the edits a run of drops records: one move edit, for `dest`, per node whose move passes its checks, in order, none for the others |
| Editor.MoveRecord | src/model.js:117-150 | the edits one `move` records: one move edit exactly when its checks pass |
| Editor.DroppedLast | src/model.js:171-196 | the drops of the first `i + 1` nodes are those of the first `i`, then the move of node `i`, in the scene and in the recorded edits |
| Editor.AddTarget | src/model.js:469-481 | a target is always a container: the last selected node if it is one, else its parent if that is one, else none |
| Editor.RemoveActions | src/model.js:499-501 | one action per selected node, in order, recording the node's parent |
| Editor.Squared | src/model.js:465 | `d.width = d.height = side` writes the height first, then the width |
| Editor.AddSizing | src/model.js:460-480 | the boxes a new widget's delegate passes through: squared to 300 as the visual root, then squared to 100 when placed; none for a non-container |
| Editor.AddRecorded | src/model.js:443-450 | the add is a not-yet-applied edit; its result is well formed, attaches the new node in the forest and registers its name |
| Editor.RemoveRecorded | src/model.js:498-536 | the removal is a not-yet-applied edit; its result is well formed, the selected nodes are detached and unnamed, and the others keep their place |
| Editor.HorizontalBoxUndecorated | src/model.js:889-898 | as written, a horizontal box gets no handle and a vertical box the bottom handle |
| Editor.HandleSetAsWritten | src/model.js:889-898 | the handle set exactly as the code writes it, with the vertical-box test repeated; `HorizontalBoxUndecorated` exhibits what that does |
| Editor.HandleSet | src/model.js:889-898 | the handle set as evidently intended; it agrees with the code everywhere except the horizontal box |
| Editor.HandlesFollowLayout | src/model.js:889-898 | outside an anchors pane no handle moves the origin; a box offers the one handle growing along its orientation; an anchors pane offers all eight |
| Editor.HandlesAsWrittenFollowLayout | src/model.js:889-898 | the handle set as written: outside an anchors pane no handle it offers moves the origin, a vertical box offers the bottom handle, an anchors pane all eight |
| Editor.Ended | src/location-size.js:312-314 | each item paired with its start snapshot and its current snapshot |
| Editor.DelegatesOfEnded | src/location-size.js:315-329 | the delegates the move-items edit writes are exactly those of the moved items |
| Editor.SameEndsApplied | src/location-size.js:318-320 | when each delegate's end snapshots agree, applying them gives every item its own end anchors |
| Editor.Winnie.constructor | src/model.js:53-63 | empty scene and history, grid 10 by 10, undo depth 1024 * 1024 |
| Editor.Winnie.CanUndo | src/model.js:600-602 | `0 < cursor <= |edits|`; in a valid editor, exactly when the cursor is positive |
| Editor.Winnie.CanRedo | src/model.js:586-588 | `0 <= cursor < |edits|`; in a valid editor, exactly when the cursor is before the end |
| Editor.Winnie.RunRedo | src/model.js:593 | runs a command's redo on the scene and on its delegates, returning the command as its redo left it |
| Editor.Winnie.RunUndo | src/model.js:608 | runs a command's undo on the scene and on its delegates |
| Editor.Winnie.Edit | src/model.js:614-627 | runs the redo, then the history is the old prefix before the cursor plus the edit, with the oldest beyond `undoDepth` evicted, and the cursor at the end |
| Editor.Winnie.Push | src/model.js:616-621 | records an applied edit after the prefix before the cursor |
| Editor.Winnie.Store | src/model.js:616-626 | stores a history that ends at the current scene, evicted to `undoDepth`, with the cursor at its end |
| Editor.Winnie.Evict | src/model.js:622-626 | shifts out the oldest edits until at most `undoDepth` remain, lowering the cursor with each, without running any undo or redo |
| Editor.Winnie.Undo | src/model.js:604-612 | when enabled, the cursor steps back and the scene becomes the one before that edit; otherwise nothing changes |
| Editor.Winnie.UndoStep | src/model.js:606-610 | the enabled branch of `undo()`: the cursor steps back, the edit's undo is run on the scene and on its delegates, and the history stays consistent |
| Editor.Winnie.Redo | src/model.js:590-598 | when enabled, the scene becomes the one after the edit at the cursor and the cursor steps forward; otherwise nothing changes |
| Editor.Winnie.Move | src/model.js:103-168 | returns true exactly when the checks pass; the scene becomes `MoveScene`; the history records `MoveRecord`: the move edit after the prefix before the cursor, evicted, the cursor at the end, or no change at all when the checks fail |
| Editor.Winnie.Choose | src/model.js:104-116 | the checks in the source's order: kinds, itself, a descendant, a full destination, the same position |
| Editor.Winnie.Commit | src/model.js:117-151 | records the move edit and leaves the moved scene |
| Editor.Winnie.MoveEach | src/model.js:171-196 | the nodes moved one after another; every node ends under its old parent or, if it was moved, under `dest`; attached nodes stay attached; the history records `DropEdits`, one move edit per move that passed, evicted, the cursor at the end |
| Editor.Winnie.DropNext | src/model.js:171-196 | one more drop, keeping that every node moved so far is under `dest` and the others under their old parent |
| Editor.Winnie.DropInto | src/model.js:171-176 | the dragged nodes, each moved to the current end of `dest`; the history records their passing moves (`DropEdits`) |
| Editor.Winnie.DropBefore | src/model.js:178-186 | the dragged nodes, reversed, each moved to the index `before` had; the history records their passing moves (`DropEdits`) |
| Editor.Winnie.PastIndex | src/model.js:190-195 | the index just past `after` in its holder |
| Editor.Winnie.DropAfter | src/model.js:188-196 | the dragged nodes, reversed, each moved just past the index `after` had; the history records their passing moves (`DropEdits`) |
| Editor.Winnie.MoveToEnd | src/model.js:469-481 | the scene is exactly `MoveScene` with `dest.count` as the index: the node appended to `dest`, or everything unchanged when `move` refuses; no record changes; the history records `MoveRecord` |
| Editor.Winnie.Place | src/model.js:469-481 | with a target, the scene is exactly `MoveScene` appending the node to it, otherwise unchanged (the move recorded as `MoveRecord`); a container is then sized 100 by 100 through the setters, height first, whether or not the move passed |
| Editor.Winnie.RecordAdd | src/model.js:443-459 | one recorded edit pushes the new node onto the forest under a fresh id and registers its name |
| Editor.Winnie.Create | src/model.js:294-468 | the first free default name, a fresh node and delegate, the recorded add, and a container squared to 300 through the setters when there is no visual root |
| Editor.SizeAdded | src/model.js:460-466 | a container that becomes the visual root is sized to 300 by 300 through the setters, height first; any other new widget keeps its zero box; properties unchanged |
| Editor.Winnie.AddWidget | src/model.js:294-484 | a fresh node in the scene tree under the first free default name, the scene is exactly the add's `AddRedo` (pushed onto the forest, name registered) followed by `MoveScene` appending it to the add target when there is one, so every other array keeps its order; the delegate's box and anchors follow `AddSizing`; the history records the add, then the move into the target when it passed |
| Editor.Winnie.PlaceAdded | src/model.js:469-481 | the scene is exactly `MoveScene` appending the added widget to the target, or unchanged without one, its move recorded after the addition; a container's sizing continues from its first sizing to `AddSizing` with the placement |
| Editor.Winnie.Rename | src/model.js:410-441 | a used or non-identifier name is refused (the old name is returned and nothing is recorded); otherwise one edit moves the index entry to the new name, and the cursor ends after it |
| Editor.Winnie.RemoveSelected | src/model.js:486-538 | one edit removes every selected node from its holder and the index, the scene equal to `RemovedScene`, the cursor at the end of the history; every other node keeps its place |
| Editor.Winnie.SetProperty | src/model.js:805-834 | the property takes the new value, the edit records the value it replaced, and the cursor ends after it |
| Editor.Winnie.EndResize | src/model.js:853-888 | a gesture that moved records one edit with the pointer-down and current anchors, the cursor at the end; a zero one records nothing |
| Editor.Winnie.EndSnapshots | src/location-size.js:312-314 | each item paired with its current end snapshot |
| Editor.Winnie.EndItemsMove | src/location-size.js:310-331 | an empty list records nothing; otherwise one edit holding every item's start and end snapshot, the cursor at the end, the delegates left as they are |
| Editor.Winnie.ResizeRoundTrip | src/model.js:855-886 | after a recorded resize, `undo()` leaves the delegate with the pointer-down anchors and a following `redo()` with the released ones |
| Editor.Winnie.ItemsMoveRoundTrip | src/location-size.js:310-331 | after a recorded move of items, `undo()` gives each delegate the anchors of its last start snapshot, and a following `redo()` gives every delegate back its released box and anchors |
| Editor.Winnie.UndoItemsMove | src/location-size.js:310-331 | a released move of items recorded as the last edit, then undone: the boxes stay as released and each delegate's last item gets its start anchors |
| Editor.Winnie.RedoItemsMove | src/location-size.js:310-331 | redoing the recorded move of items gives every delegate its released box and anchors, the cursor back at the end |
| Editor.LastDecides | src/location-size.js:317-328 | placements that agree per delegate and at each delegate's last position agree everywhere |
| Editor.Winnie.Decorate | src/model.js:847-911 | with exactly one node selected, the handle set the code writes (`HandleSetAsWritten`) for the page attachment the toolkit reports (`attached`) and the node's parent's layout; otherwise the handles stay; the scene and history are untouched |
| Editor.ParentPane | src/model.js:889-896 | the layout `decorate` tests: the pane of the node's parent container, or none at the top level |
| Editor.Winnie.Clear | src/model.js:284-292 | empty history, cursor 0, empty forest and name index |

## Left out

- **UI.** Explorer notifications (`added`, `removed`, `goTo`, `changed`, `select`/`unselect`), `checkEnabled`, `Logger`, `alert` and `prompt` are left out. They do not change the engine's state.
- **Selection as a parameter.** The explorer's selection and `lastSelected` are parameters of the methods that read them. The `lastSelected` setter and the building of the property sheet are reflection over toolkit objects and are left out.
- **In-place reverse of the selection.** The drop handlers' `selected.reverse()` also reverses the explorer's selection array in place. Only the order of the moves is modelled.
- **Left out of `addWidget`:**
  - the DOM work of the visual root (`visualRootPresent` becomes a parameter);
  - `centerSurface` and `stickDecors`;
  - the drag-and-drop handlers `produce` installs;
  - the Grid dimension prompt;
  - the widget's text.
- **Widget wrapper and names.** `src/winnie-widget.js` (the node wrapper, with `add`, `remove`, `indexOf`, `count` and `full`) is not part of this model. Its operations are assumed to splice the children array and to set or clear the parent link. The Grid prompt's parsing is not part of this model either.
- **Pixel and float arithmetic.** Coordinates are integers. `Math.round(v / g)` is modelled as rounding half up on integers, which matches it for integer inputs. Decorations' `stick` positions (`leftInSpaceOf`, `topInSpaceOf`) are left out.
- **Box and anchors.** A delegate holds its box and its six anchor strings. Every box write goes through `SetBounds`, which also rewrites the anchors as the delegate's `restyle` function says. That function stands for the toolkit's `left`/`top`/`width`/`height` setters, which are not part of this model. The box reads back what the setters last wrote.
- **Layout after an anchor write.** Restoring a snapshot, or the undo or redo of a resize, writes the six anchor strings only. The re-layout the browser then does to the box is not modelled, so restoring anchors is not shown to restore the box.
- Geometry.ProceededDistinct: states each delegate's exact placement only when no delegate occurs twice in the gesture. With repeats, `Proceeded` still models the writes exactly, and `ProceededLast` says which item wins.
- Editor.Winnie.ItemsMoveRoundTrip: states the undone anchors for the last item of each delegate, the snapshot the undo applies last. An earlier item of the same delegate is overwritten, so its start snapshot is not what the delegate shows.
- Names.LowerFirst: lower-cases ASCII letters only. The palette's constructor names are ASCII identifiers, so `toLowerCase` agrees with it on every name the editor meets.
- **Toolkit objects.** The delegate's constructor stands for creating the toolkit widget: a box of zeros, no anchors, no properties.
- **Page attachment.** Whether a toolkit widget is on the page is state of the browser's document, which the toolkit reports as `delegate.attached`. The document and the toolkit are not part of this model. The model takes attachment as an input wherever the editor reads it: the `attached` parameter of `Decorate` (model.js:852) and `Item.attached` in the items-move filter (location-size.js:275). How accepting the visual root, adding into a container, moving, removing and their undos attach or detach widgets is not modelled, so no operation promises anything about it.
- Editor.Winnie.Decorate: takes the selected delegate's attachment as the parameter `attached` instead of reading it from the editor's state, because the model does not track page attachment. It also requires the last selected node to have a record in `nodes`, on the same assumption about the explorer as `AddWidget` below.
- Editor.Winnie.Place: says nothing about page attachment. In the source, a widget placed under a container that is on the page is on the page afterwards.
- Editor.Winnie.PlaceAdded: says nothing about page attachment, as for `Place`.
- Editor.Winnie.AddWidget: says nothing about page attachment. In the source, a new visual root is appended to the design surface (model.js:943), and a widget added into an attached container is attached.
- Editor.Winnie.SetProperty: a property edit changes the delegate's `props` only. In the source the sheet writes `item.delegate[key]` (model.js:813) for keys taken from the delegate's own properties (model.js:791). If one of them is `left`, `top`, `width` or `height`, that write runs the toolkit's box setter. The model does not route such writes through `SetBounds`, so it keeps the box and anchors unchanged there.
- **Property paths.** Dotted property paths (`Bound.getPathData`/`setPathData`) are treated like plain keys. An undefined property value is an absent key.
- **Rectangle selection and click selection.** Rectangle selection (`rect-selection.js`) is not part of this model. Neither is the click-selection branch of a zero-displacement release.
- **Not modelled:** copy, paste, cut, save, code generation, the palette, keyboard shortcuts, and the property value renderer.
- **Records of removed nodes.** A removed or un-added node is not reachable by the editor. Its record stays in `nodes` after a removal. An undone add deletes its record.
- Editor.Winnie.Move: requires `0 <= addAt <= count` of the destination, which every caller in the source meets. Other indexes passed to `splice` are not modelled here.
- Editor.Winnie.AddWidget: requires the last selected node to have a record in `nodes`. The source does not guarantee it: `clear()` (model.js:284-292) and an undone add (model.js:451-458) drop nodes without resetting `lastSelected`, which only the explorer's `onSelect` sets (model.js:85-88). A later `addWidget` then moves the new widget into that stale container (model.js:470-472). `Clear` and `AddUndo` delete the dropped records, so the model cannot represent that target; it assumes the explorer clears `lastSelected` when `clear()` or an undone add drops its node, and does not model an add into a node that is no longer in the scene.
- Editor.Winnie.RemoveSelected: requires a selection without repeats, as the explorer's selection is. An empty selection is modelled as no change. The source dereferences `toRemove[0]` while naming the edit, so it throws before recording anything.
- Editor.Dropped: a node or destination missing from the scene is skipped. The editor's drops never meet one.
- Gesture.MouseDrag.MouseDown: the `dragstart` suppression and the return value that removes the element listeners are left out.

## Findings

| source | as written | input that shows it | evidently intended | confidence | as-written member | corrected member |
|---|---|---|---|---|---|---|
| src/model.js:893-896 | `decorate` tests `parent instanceof Box && orientation === VERTICAL` twice, so its fourth branch can never be taken | a selected, attached widget inside a horizontal `Box`: no resize handle is shown (`HandleSetAsWritten(true, Some(BoxPane(Horizontal))) == []`) | the second test is for `HORIZONTAL` and offers the handle that grows the child along the box, the right-middle one | medium, not executed | Editor.HorizontalBoxUndecorated | Editor.HandlesFollowLayout |

The editor's `Decorate` uses `HandleSetAsWritten`, the code as written. `HandleSet` is the corrected definition, and `HandlesFollowLayout` proves the intended property about it.
