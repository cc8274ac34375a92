# Sticker composer editor state, modelled in Dafny

The composer page (`script.js`) lets a user drop images on a canvas that
already holds a base character image, move them, select one, rotate, scale and
fade it through three inputs, delete it, clear the canvas back to the base
image, and undo or redo the deletes and clears. This project models that
editor state and its event handlers and proves the laws they obey.

- `options.dfy` — `Options.Option`, for the `null`-able references.
- `history.dfy` — `UndoHistory`: the surface plus the undo and redo stacks of
  whole-surface snapshots, as pure functions (`Save`, `Edit`, `Undo`, `Redo`),
  and the laws: undo/redo round trips, no-op on empty stacks, preserved total
  depth, an edit after an undo makes redo a no-op, N edits then N undos give
  back the start, N undos then N redos give back everything.
- `transform.dfy` — `Transform`: the text `rotate(Rdeg) scale(S)` that the
  transform inputs write, and the regular expression
  `rotate\((-?\d+)deg\) scale\(([\d.]+)\)` that the click handler uses to read
  it back (unanchored, leftmost match, greedy runs), with the round trip.
- `elements.dfy` — `Elements`: the placed image (`src`, `left`, `top`, `width`,
  transform and opacity style strings, outline), the control values, the drop
  placement (`left = x - 50`, `top = y - 50`, `width = 100`), the click-time
  read-back of the controls, and the remove-one-entry operation.
- `editor.dfy` — `Composer.Editor`: a class whose fields are the page's global
  state (`surface`, `selected`, the dragged image, the controls, `undoStack`,
  `redoStack`) and whose methods are the handlers. Each method's `ensures`
  gives its whole new state, the state the history manager sees in terms of
  the `UndoHistory` functions, and `modifies` names the only fields it may
  change. Five client methods show the laws at the level of the page.

DOM nodes have an identity that a value copy has not. Each surface entry
carries a node id. Images made by a drop get fresh ids and are the nodes that
carry click and dragstart listeners. Undo and redo replace `innerHTML`, which
builds new nodes without listeners. So restored entries get fresh ids that are
not interactive. A selection or drag reference taken earlier then names a
detached node: deleting it still records a snapshot but leaves the surface as
it is, and moving or restyling it changes nothing on the surface. Clear
re-attaches the original base node and detaches everything else. That node
keeps its own state (`baseImage`) between clears: an outline cleared by a
click while it was on the canvas stays cleared when clear puts it back.

Three points of the code's behaviour are easy to misread, and the model keeps them as the code has them:

- The undo and redo stacks are not kept distinct at the top. Two snapshots
  of the same surface followed by one undo leave equal tops
  (`UndoHistory.SharedTopsHappen`); on the page, a clear of the freshly
  loaded canvas followed by an undo does it (`Composer.SharedTopsOnPage`).
- An image has no selection flag of its own. The code keeps only the outline
  style and the global `selected` reference, and the outline is part of each
  snapshot because it is part of `innerHTML`.
- Both canvas `drop` listeners run on every drop. The dragstart listener of a
  dropped image empties the drag payload, so a move arrives as a drop with an
  empty payload. A new-image drop also moves a stale dragged image left over
  from a cancelled in-canvas drag (`Composer.Editor.Drop`).

## Model

| member | source | states |
|---|---|---|
| `Composer.Editor.constructor` | script.js:1-14 | at load the canvas holds only the base image node, which is also the kept state of that node; nothing is selected or dragged, the one snapshot on the undo stack is that surface and the redo stack is empty |
| `Composer.Editor.SaveState` | script.js:10-13 | the undo stack gains exactly the current surface as its new top, the older entries and the surface are unchanged, the redo stack becomes empty |
| `Composer.Editor.Restore` | script.js:124 | replacing the canvas content makes the surface equal to the snapshot, built from new node ids, so any earlier selection or drag reference is detached |
| `Composer.Editor.Undo` | script.js:121-125 | the history becomes `UndoHistory.Undo` of the old history: nothing changes on an empty undo stack; otherwise the surface goes onto the redo stack and the popped snapshot is restored with fresh nodes |
| `Composer.Editor.Redo` | script.js:127-131 | the history becomes `UndoHistory.Redo` of the old history: nothing changes on an empty redo stack; otherwise the mirror image of undo |
| `Composer.Editor.Delete` | script.js:113-118 | without a selection nothing changes; with one the pre-delete surface is pushed, redo is emptied, the selected node alone is removed (if still attached) with the others in order, and the selection is cleared |
| `Composer.Editor.Clear` | script.js:161-165 | the pre-clear surface is pushed, redo is emptied, and the surface is exactly the base node as it is now (an outline cleared meanwhile stays cleared), so no old reference is attached |
| `Composer.Editor.DropNew` | script.js:31-74 | an empty payload changes nothing; otherwise exactly one new interactive image placed 50px left of and above the drop point is appended on top, earlier entries and both stacks untouched |
| `Composer.Editor.StartMove` | script.js:53-57 | dragging a dropped image makes it the dragged image; an image without the listener leaves the reference as it was |
| `Composer.Editor.DropMove` | script.js:81-91 | with a dragged image still on the canvas only its left and top change, to (x - 50, y - 50); with none, or a detached one, the surface is unchanged; the reference ends cleared and the stacks are untouched |
| `Composer.Editor.Drop` | script.js:31-91 | one drop runs both listeners in order: a non-empty payload appends one new image and its fresh node, then a dragged image still on the canvas, at its index among the old nodes, is placed 50px left of and above the drop point; a missing or detached reference leaves the appended surface as it is; the reference ends cleared |
| `Composer.Editor.ClearOutlines` | script.js:64-171 | every image on the canvas loses its outline and nothing else about it changes; the base node object loses its outline exactly when it is on the canvas |
| `Composer.Editor.Click` | script.js:60-71 | clicking a dropped image selects it, outlines it alone (clearing the base node's outline when it is attached), and sets the controls to what its style reads back as; clicking any other image changes nothing |
| `Composer.Editor.ClickBackground` | script.js:168-175 | a background click clears the selection and every outline, including the attached base node's, and resets the controls to 0, 1, 1 |
| `Composer.Editor.ApplyTransform` | script.js:106-110 | with an attached selection only its transform changes, to the format of the rotation and scale controls; without a selection the surface is unchanged |
| `Composer.Editor.InputRotation` | script.js:102 | the rotation control takes the input value and the selected image, if any, gets the transform for it |
| `Composer.Editor.InputScale` | script.js:103 | the scale control takes the input value and the selected image, if any, gets the transform for it |
| `Composer.Editor.InputOpacity` | script.js:104 | the opacity control takes the input value and only the selected image's opacity changes to it; without a selection the surface is unchanged |
| `Composer.FreshNodes` | script.js:124 | the nodes built from a snapshot are as many as its entries, pairwise distinct, and none is below the first unused id, so none is a node already handed out |
| `Composer.UndoRedoRoundTrip` | script.js:121-131 | on the page, undo then redo gives back the surface and both stacks |
| `Composer.DeleteUndoRoundTrip` | script.js:113-125 | on the page, deleting the selection then undoing gives back the pre-delete surface and undo stack |
| `Composer.SelectAndSet` | script.js:60-110 | selecting a dropped image and setting the three controls writes the formatted transform and the opacity into that image's style, nodes untouched |
| `Composer.ControlsRoundTrip` | script.js:60-110 | setting rotation, scale and a non-empty opacity on the selected image and clicking it again reads exactly those values back into the controls |
| `Composer.SharedTopsOnPage` | script.js:121-125 | on the page, loading, clearing and undoing leaves the same snapshot on top of the undo and the redo stack |
| `UndoHistory.Save` | script.js:10-13 | the snapshot is the current surface on top of an intact undo stack, and redo is empty |
| `UndoHistory.Edit` | script.js:113-165 | a destructive edit is a snapshot followed by replacing the surface |
| `UndoHistory.Undo` | script.js:121-125 | no-op on an empty undo stack; otherwise pops the undo top into the surface and pushes the old surface on redo; keeps the total depth of both stacks |
| `UndoHistory.Redo` | script.js:127-131 | no-op on an empty redo stack; otherwise the mirror image of undo; keeps the total depth |
| `UndoHistory.UndoThenRedo` | script.js:121-131 | undo followed by redo restores surface, undo stack and redo stack |
| `UndoHistory.RedoThenUndo` | script.js:121-131 | redo followed by undo restores surface, undo stack and redo stack |
| `UndoHistory.EditThenUndo` | script.js:113-125 | an undo right after a delete or clear restores the pre-edit surface and undo stack, leaving just the edited surface on redo |
| `UndoHistory.EditAfterUndoBlocksRedo` | script.js:113-131 | undo, then a delete or clear, then redo: the redo is a no-op |
| `UndoHistory.EditAllUndoLength` | script.js:10-13 | each destructive edit deepens the undo stack by one |
| `UndoHistory.UndoesRevertEdits` | script.js:113-125 | after a series of back-to-back edits, k undos give the surface and undo stack as they were after all but the last k edits |
| `UndoHistory.NEditsThenNUndos` | script.js:113-125 | N consecutive edits with nothing in between (for instance N clears) followed by N undos give back the exact starting surface and undo stack |
| `UndoHistory.UndoesRevertEach` | script.js:113-125 | after a series of edits each preceded by its own change to the surface (the click that selects the next image to delete), k undos give back the surface from just before the k-th last edit and the undo stack from before it |
| `UndoHistory.NChangedEditsThenNUndos` | script.js:113-125 | N deletions, each after the click that selected its image, followed by N undos give back the surface from just before the first deletion and the starting undo stack |
| `UndoHistory.UndoTimesLength` | script.js:121-125 | n undos shorten a deep enough undo stack by n |
| `UndoHistory.UndosThenRedos` | script.js:121-131 | n undos followed by n redos restore surface and both stacks |
| `UndoHistory.SharedTopsHappen` | script.js:121-131 | the undo and redo tops can be equal after an undo |
| `Transform.DigitChar` | script.js:109 | a decimal digit is printed as the character with that value |
| `Transform.NatText` | script.js:109 | the printed decimal text of a natural number is a digit string that denotes exactly that number |
| `Transform.IntText` | script.js:109 | the printed text of an integer rotation matches `-?\d+` and denotes exactly that integer |
| `Transform.Run` | script.js:67 | a greedy character-class run: all characters in it belong to the class, and the next one (if any) does not |
| `Transform.RunIs` | script.js:67 | a run is determined by where the class characters stop |
| `Transform.RunOverSlice` | script.js:67 | a slice of class characters followed by a non-class character is exactly one run |
| `Transform.MatchAt` | script.js:67 | a match at a position yields a first group matching `-?\d+` and a second matching `[\d.]+`, and the text at that position is `rotate(`, the first group, `deg) scale(`, the second group and `)` |
| `Transform.DigitsStart` | script.js:67 | the optional `-` is taken exactly when the character there is `-` |
| `Transform.RotationGroup` | script.js:67 | the stage after `rotate(` only succeeds with two well-formed groups laid out as the pattern says |
| `Transform.ScaleGroup` | script.js:67 | the stage after `deg) scale(` only succeeds with a well-formed scale group closed by `)` |
| `Transform.Glue` | script.js:67 | the literal pieces and the two groups found in order make up one contiguous match text |
| `Transform.Layout` | script.js:67 | a match text at a position puts each literal and each group at its known offset |
| `Transform.RotationStep` | script.js:67 | when the digit run ends at `deg) scale(`, the rotation stage hands on to the scale stage |
| `Transform.ScaleStep` | script.js:67 | when the scale run ends at `)`, the scale stage captures exactly the two group texts |
| `Transform.MatchesLayout` | script.js:67 | converse of `MatchAt`: any text holding `rotate(`, a `-?\d+` text, `deg) scale(`, a `[\d.]+` text and `)` at a position matches there with exactly those captures |
| `Transform.Search` | script.js:67 | the search returns the leftmost position where the pattern matches, or none when it matches nowhere |
| `Transform.Exec` | script.js:67 | `exec` gives the captures of the leftmost match, and nothing exactly when no position matches |
| `Transform.FormatRoundTrip` | script.js:106-110 | what `applyTransform` writes (`Transform.Format`) is matched by the click-time `exec` with exactly the rotation text and the scale text as captures |
| `Transform.EmptyDoesNotMatch` | script.js:67 | an unset transform does not match |
| `Elements.Dropped` | script.js:42-48 | a new image is 100 wide, has the payload as source, no transform, opacity or outline, and is placed 50px left of and above the drop point (centred horizontally by its width) |
| `Elements.MovedTo` | script.js:87-88 | a moved image is placed 50px left of and above the new point and differs from before only in left and top |
| `Elements.ReadControls` | script.js:67-70 | the read-back opacity is the style's opacity or 1 when unset; a transform that matches nowhere reads as rotation 0 and scale 1 |
| `Elements.ReadsLeftmost` | script.js:67-69 | when the leftmost match starts at a position, the read-back rotation and scale are the captures of that match |
| `Elements.ReadBackApplied` | script.js:64-70 | the click-time read-back of an image whose transform and opacity came from controls `c` is `c`, with an empty opacity read as 1 |
| `Elements.DroppedReadsDefaults` | script.js:42-48 | a freshly dropped image reads back the default controls |
| `Elements.OutlineIgnored` | script.js:64-70 | the outline plays no part in the read-back controls |
| `Elements.IndexOf` | script.js:116 | finds the first entry holding a node id, and finds none exactly when the node is not on the canvas |
| `Elements.RemoveAt` | script.js:116 | removing one entry keeps the others in order and removes exactly that one occurrence |
| `Elements.Detach` | script.js:116 | removing a detached node leaves the surface as it is; an attached one is removed at a position where it occurs, with the entries before and after kept in order |
| `Elements.DetachRemovesNode` | script.js:116 | with distinct node ids, removing a node removes that node and no other |

## Left out

- The DOM and rendering: layout, outline styling beyond the on/off flag, `setDragImage`, and the `dragover` listeners that enable dropping. Drops arrive as method calls.
- `getBoundingClientRect` and mouse coordinates: drop points are canvas-relative integers given as parameters.
- The palette `dragstart` listeners. The `.slider-row` listeners (script.js:22-27) only fill the drag payload, which the drop methods take as a parameter. The `.items-row` listener (script.js:17-19) only writes `draggedSrc`, which is written (script.js:18, 145) but never read, so it is not modelled.
- Upload through `FileReader` (script.js:141-148): asynchronous I/O whose only effect is the unread `draggedSrc`.
- Export through `html2canvas` and the download (script.js:151-158): an asynchronous foreign library.
- Background and character selectors (script.js:134-138): single attribute writes outside the history.
- Scale and opacity as numbers. The scale is kept as its `[\d.]+` text and the opacity as an opaque string. The rotation is an integer. The browser's clamping and sanitising of input values is not modelled.
- The browser's handling of the two style writes that are read back, `style.transform` and `style.opacity` (script.js:70, 104, 108-109): it may re-serialise a value in a normalised spelling, and it ignores a value it cannot parse (such as `scale(1..2)`, which the `[\d.]+` scale text allows). The model stores and reads back exactly the string that was written, so `Elements.ReadBackApplied` and `Composer.ControlsRoundTrip` hold only for values the browser keeps as written.
- Native dragging of restored images, which have no `dragstart` listener: the drag data the browser then supplies by default is not modelled.
- The page's initial markup is not part of this model. The canvas is taken to start with only the base image, and the controls with 0, 1 and 1.
