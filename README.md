# Site-layout drawing page and workbook commands, modelled in Dafny

This project models the discrete logic of two browser scripts:

- **`docs/drawing.js`** is a Google-Maps page for sketching solar-farm layouts.
  - It keeps areas, constraints and objects in three category lists, and names each new shape from a per-category counter (`Area 3`, `Object 7`).
  - It holds an ordered selection with a focused position, and changes it through clicks, Ctrl/Cmd+A, `[` and `]`, and Ctrl/Cmd+Backspace.
  - It deletes the selected shapes.
  - It copies the selection into a rows × cols grid, and duplicates it with Ctrl/Cmd+D.
  - It lays roads: freehand, across the areas (horizontal or vertical), and around an area's perimeter.
- **`docs/commands.js`** is an Office add-in.
  - It turns the template workbook's bytes into Base64 for `insertWorksheetsFromBase64`.
  - It picks a sheet name that is not already taken, and the sheet to rename after inserting them all.
  - It appends stamped entries to an in-sheet log, and escapes `<` before showing a message in a dialog.

## Modules

| Module | File | Contents |
|---|---|---|
| `Text` | `text.dfy` | `Option`, `Result`, and the decimal rendering of a counter in a template string. |
| `Selection` | `selection.dfy` | The rules on the ordered selection: `indexOf`, `splice`, the toggle, the focus clamp and the `[`/`]` steps. |
| `Layout` | `layout.dfy` | Overlays and entries; names; the list filtering done by `handleDelete`; grid bookkeeping; the keydown dispatch. |
| `Geometry` | `geometry.dfy` | The vertex bookkeeping of the road and perimeter helpers. |
| `Editor` | `editor.dfy` | The page state as one value, each handler as a function of it, and the invariant `Inv` every handler keeps. |
| `DrawingPage` | `drawing.dfy` | Class `Drawing`. |
| `Base64`, `Sheets`, `Messages` | `base64.dfy`, `sheets.dfy`, `messages.dfy` | The commands.js helpers. |

More on three of them:

- **Geometry.** The Maps library (`computeOffset`, `computeHeading`, `computeDistanceBetween`) and the floating-point helpers `averageHeading` and `signedAreaApprox` are the fields of a `Sphere` value, as is `Circle.getBounds`. Nothing is assumed about them, so every property proved here holds whatever they compute.
- **Editor.** `Inv` has three parts:
  - the selection has no duplicates;
  - the focus is -1 exactly when the selection is empty, and is in range otherwise;
  - every listed overlay is in the list of its own category, once, with an id below the next fresh id, and no flag is left set on a listed overlay outside the selection.
- **DrawingPage.** Class `Drawing` has the closure variables of drawing.js as fields. Its methods run each handler step by step, with the source's loops. Each method is proved to keep `Valid()` and to end in exactly the state that the matching `Editor` function gives.

An overlay is a value with an identity (`id`), a category and a shape kind. A fresh id stands for a fresh Maps object.

## Model

| member | source | states |
|---|---|---|
| Selection.IndexOf | docs/drawing.js:268-274 | `indexOf`: -1 exactly when absent; otherwise the first position holding the element. |
| Selection.RemoveAt | docs/drawing.js:275-276 | `splice(i, 1)`: one element shorter; elements before `i` stay in place and those after move down by one. |
| Selection.Toggled | docs/drawing.js:273-279 | Toggle: an unselected overlay is appended; a selected one is spliced out at its `indexOf` position unless `forceOn` (`RemoveAt`, so the others keep their order), and left alone if `forceOn`. The toggled overlay is selected afterwards iff `forceOn` or it was not selected. Other overlays keep their membership. No duplicates are created. |
| Selection.ToggleOffFacts | docs/drawing.js:275-276 | Splicing out the first occurrence removes the overlay from a duplicate-free list and keeps every other overlay. |
| Selection.Clamped | docs/drawing.js:287-291 | `updateFocusAfterSelection`: -1 iff the list is empty; otherwise in range. An in-range focus is kept, a negative one becomes 0, and one past the end becomes the last index. |
| Selection.JsRem | docs/drawing.js:625-626 | JavaScript's `%`: the remainder takes the sign of the dividend and agrees with Dafny's `%` on non-negative operands. |
| Selection.FocusNext | docs/drawing.js:625 | `]`: from -1 .. n-1 the result is in range; it steps forward by one and wraps from the last index to 0. |
| Selection.FocusPrev | docs/drawing.js:626 | `[`: from -1 .. n-1 the result is in range; it steps back by one and wraps from 0 to the last index. |
| Selection.PrevUndoesNext | docs/drawing.js:625-626 | For an in-range focus, `[` undoes `]` and `]` undoes `[`. |
| Layout.Label | docs/drawing.js:220-230 | A name is the category prefix (`Area `, `Constraint `, `Object `) followed by the counter. |
| Layout.LabelsDistinct | docs/drawing.js:220-230 | Two names are equal only for the same category and the same counter value, so monotone counters never repeat a name. |
| Layout.Without | docs/drawing.js:452-458 | The entries that survive a delete are exactly those whose overlay was not deleted. |
| Layout.WithoutConcat | docs/drawing.js:452-458 | Filtering works entry by entry: filtering two joined lists joins the filtered parts, so the surviving entries keep their order. |
| Layout.WithoutOne | docs/drawing.js:452-458 | A single entry survives exactly when its overlay is not deleted. |
| Layout.SpliceOutIsWithout | docs/drawing.js:455-456 | In a list where each overlay occurs once, `findIndex` followed by `splice` removes exactly that overlay's entry; a missing overlay leaves the list unchanged. |
| Layout.WithoutTwice | docs/drawing.js:453-458 | Deleting one set of overlays and then another is deleting their union. |
| Layout.DeleteStep | docs/drawing.js:454-456 | One iteration of `handleDelete`'s `forEach` touches only the list of the overlay's category, and extends the deleted set by that overlay. |
| Layout.OverlaysOfWithout | docs/drawing.js:452-458 | After a delete, an overlay is listed iff it was listed before and was not deleted. |
| Layout.FirstArea | docs/drawing.js:893 | `selected.find(o => o.__cat === 'area')`: -1 iff no selected overlay is an area; otherwise the first area in selection order. |
| Layout.PerimeterArea | docs/drawing.js:893-894 | The perimeter road follows the first selected area, or else the last area drawn, and there is none exactly when neither exists. |
| Layout.Batch | docs/drawing.js:850-863 | Copying a buffer makes one new overlay per item, with consecutive ids and the item's category and kind. |
| Layout.MadeShape | docs/drawing.js:844-865 | Over a list of cells, the copies number cells × buffer, with consecutive ids. |
| Layout.GridCount | docs/drawing.js:844-866 | A grid of rows × cols creates `(rows * cols - 1) * buffer.length` shapes, and none when rows or cols is not positive. |
| Layout.OfCatConcat | docs/drawing.js:853-861 | The overlays of one category in two batches are those of the first batch followed by those of the second. |
| Layout.Named | docs/drawing.js:853-861 | The k-th new overlay of a category is named with that category's counter plus k + 1. |
| Layout.NamedConcat | docs/drawing.js:853-861 | Naming two batches in turn equals naming them together. |
| Layout.GridTargetsLength | docs/drawing.js:844-852 | There is one target per buffer item in every cell. |
| Layout.GridTargetAt | docs/drawing.js:844-852 | Buffer item j of cell (r, c) is shape number `i * buffer.length + j`, where i is the cell's position. Its target is the item's centre carried, by `targetShift`, from the group centre to the cell's target. That target is `c * sx` east and then `r * sy` south of the group centre. |
| Layout.CtrlBackspaceDeletes | docs/drawing.js:609-629 | As written, Ctrl/Cmd+Backspace runs the delete before the deselect (see Findings). |
| Layout.KeyActions | docs/drawing.js:560-629 | The corrected dispatch runs at most one state-changing action per key (Ctrl/Cmd+A, Ctrl/Cmd+D, Delete/Backspace, `]`, `[`). Backspace deletes without Ctrl/Cmd and deselects the focused item with it. Every other key is dispatched as written. |
| Layout.KeyActionsDispatch | docs/drawing.js:560-629 | Escape and typing run nothing; any other key runs the action of the first test it passes (select all, duplicate, delete, next, previous, deselect), and nothing when it passes none. |
| Geometry.HeadingAtIndex | docs/drawing.js:989-996 | The first vertex uses the first segment's heading and the last vertex uses the last segment's. An inner vertex averages the headings of its two segments. |
| Geometry.HeadingIsLocal | docs/drawing.js:989-996 | The heading at a vertex depends only on that vertex and its two neighbours (and on whether it is the last vertex). |
| Geometry.Reversed | docs/drawing.js:985 | `reverse`: the same length, with element k taken from position n-1-k. |
| Geometry.CorridorShape | docs/drawing.js:976-988 | A corridor around n ≥ 2 points has 2n vertices: the n left offsets in path order, then the n right offsets in reverse order. |
| Geometry.CorridorFromPath | docs/drawing.js:976-988 | The loop that fills `left` and `right`, followed by `right.reverse()` and `concat`, yields that corridor. |
| Geometry.Unclosed | docs/drawing.js:1005 | A closing vertex equal to the first one is dropped, and only when the path is longer than the given minimum. Otherwise the path is kept whole. |
| Geometry.UnclosedOfClosed | docs/drawing.js:947 | Closing an open ring and then stripping it gives the ring back. |
| Geometry.RectRing | docs/drawing.js:949-954 | A rectangle's perimeter is NW, NE, SE, SW, NW: five points, closed, with its sides along the bounds. |
| Geometry.PerimeterShape | docs/drawing.js:944-963 | The intended perimeter (see Findings): a polygon gives its path, minus a repeated closing vertex. A rectangle gives 5 closed points. A circle gives 64 samples at multiples of 360/64 degrees, followed by the first sample again. |
| Geometry.CirclePerimeterAsWritten | docs/drawing.js:944-963 | As written, a circle answers `getBounds`, so its perimeter is its bounding box's closed ring and the inward ring has 4 corners, where the intended one has 64 points. Polygons and rectangles get the same perimeter either way. |
| Geometry.GetPerimeterPath | docs/drawing.js:944-963 | With the circle tested before the bounds, the circle-sampling loop yields the intended perimeter. |
| Geometry.NeighboursInverse | docs/drawing.js:1009 | `(i-1+L)%L` and `(i+1)%L` are inverse steps around a ring. |
| Geometry.InwardClosedSame | docs/drawing.js:1004-1016 | Offsetting a ring inward gives one point per distinct vertex, and a repeated closing vertex changes nothing. |
| Geometry.OffsetClosedPathInward | docs/drawing.js:1004-1016 | The loop over the ring yields that inward offset. |
| Geometry.GridCellsSpec | docs/drawing.js:844-846 | The grid visits exactly the cells with r < rows and c < cols other than (0, 0). There are rows × cols - 1 of them, and none when rows or cols is not positive. |
| Geometry.AllCellsOriginOnce | docs/drawing.js:844-846 | (0, 0) occurs only as the first cell of the row-major walk, so skipping it skips exactly one cell. |
| Geometry.RoadLinesInside | docs/drawing.js:912-928 | Road i of n sits strictly between the bounds' min and max, and the roads increase with i. |
| Geometry.RoadLinesWrapped | docs/drawing.js:925-928 | When the west edge is east of the east edge (bounds across the antimeridian), every vertical road lies between the two edges, outside the longitudes the bounds cover. |
| Geometry.RoadPath | docs/drawing.js:912-930 | A horizontal road runs at a fixed latitude from the west edge to the east edge. A vertical road runs at a fixed longitude from the south edge to the north edge. |
| Editor.ToggleFacts | docs/drawing.js:273-291 | Toggling keeps the selection well formed. The selection becomes `Toggled`, the overlay's flag follows its membership, other flags stay, and the focus is re-clamped. |
| Editor.ClearFacts | docs/drawing.js:283-286 | `clearSelection` empties the selection and sets the focus to -1. It clears the flag of every overlay that was selected and no other flag. |
| Editor.ClickFacts | docs/drawing.js:267-272 | An additive click toggles the overlay off or on. A plain click leaves exactly that overlay selected. Either way the focus points at the overlay iff it is selected. |
| Editor.DeselectFacts | docs/drawing.js:292-298 | With a focused item, that item is removed from the selection, unflagged, and the focus re-clamped. Without one, nothing changes. |
| Editor.CycleFacts | docs/drawing.js:625-626 | `[` and `]` change only the focus, which stays in range on a non-empty selection. |
| Editor.CycleBack | docs/drawing.js:625-626 | `[` after `]`, and `]` after `[`, restore the selection state. |
| Editor.SelectAllFacts | docs/drawing.js:585-591 | Clearing and then turning on every listed overlay in order selects exactly that list, focused at 0 (or -1 when it is empty). |
| Editor.SelectEverythingFacts | docs/drawing.js:585-591 | Ctrl/Cmd+A selects every listed overlay in list order, keeps the invariant, and focuses the first (or -1 when nothing is listed). |
| Editor.AllOverlaysDistinct | docs/drawing.js:588 | `[...areas, ...constraints, ...objects]` has no duplicates and holds exactly the listed overlays. |
| Editor.DeleteFacts | docs/drawing.js:452-461 | On an empty selection `handleDelete` changes nothing. Otherwise each category list loses exactly the selected overlays. The selection ends empty with focus -1. Counters and ids are unchanged. |
| Editor.AddFacts | docs/drawing.js:220-230 | A new entry is appended to its own category's list only, with a fresh overlay that was not listed before. |
| Editor.RegisterFacts | docs/drawing.js:220-230 | A new shape advances only its category's counter and is named with the counter's new value. |
| Editor.CompleteFacts | docs/drawing.js:204-236 | A finished drawing is registered and ends up alone in the selection, focused. |
| Editor.RoadEffect | docs/drawing.js:966-975 | A path of fewer than 2 points changes nothing. Otherwise the road becomes the last object and is alone in the selection. An unnamed road takes `Road N` from the advanced road counter. |
| Editor.RoadKeepsInv | docs/drawing.js:966-975 | A road keeps the invariant. |
| Editor.FreeRoadFacts | docs/drawing.js:208-215 | A freehand road advances the road counter even when the line is too short for a road, and is named `Road N`. |
| Editor.RoadEntries | docs/drawing.js:911-915 | The roads of one button press are `Road H1` .. `Road Hn` (or `V`), with consecutive new ids. |
| Editor.AddRoadsEffect | docs/drawing.js:911-915 | n roads append exactly those entries to the objects and move no counter. The last road ends up alone in the selection. |
| Editor.RoadsFacts | docs/drawing.js:902-933 | `n <= 0` does nothing. Without an area there is an alert and nothing else. Otherwise exactly n roads are added. |
| Editor.PerimeterRoadFacts | docs/drawing.js:889-901 | The ring followed is the intended perimeter (`Geometry.Perimeter`). The alert "Draw or select an Area first." appears exactly when there is no area, and any alert changes nothing. Otherwise the road counter advances. If the inward ring is long enough, `Perimeter Road N` becomes the last object and is alone in the selection. |
| Editor.RegisterAllFacts | docs/drawing.js:850-863 | Copying a buffer appends each copy to its category's list in order, named with that counter's next values. The selection is kept and ids advance by the buffer's length. |
| Editor.GridStateFacts | docs/drawing.js:844-866 | Over a list of cells, the lists receive the copies of every cell in order. |
| Editor.GridFacts | docs/drawing.js:836-868 | Grid apply without a selection, or with rows or cols not positive, changes nothing. Otherwise it adds `(rows * cols - 1) * selected.length` shapes, cell by cell, named per category, and keeps the selection. |
| Editor.DuplicateStepsFacts | docs/drawing.js:398-421 | From an empty selection, copying items one by one registers each copy under its category's next counter value, with consecutive ids, and leaves exactly the copies selected in order, focused at the first. |
| Editor.DuplicateFacts | docs/drawing.js:389-424 | `duplicateSelectionAt` does nothing without a selection. Otherwise it adds one copy per selected overlay to the list of its category, named with that counter's next values. Exactly the copies end up selected, in order, focused at the first; the originals lose their flags. |
| Editor.PerformFacts | docs/drawing.js:585-629 | Every state-changing action of the keydown handler keeps the invariant. |
| Editor.KeyDownFacts | docs/drawing.js:560-630 | Every key keeps the invariant. Escape and keys typed into an input change nothing, and a key with one action has exactly that action's effect. |
| Editor.KeyDownDispatch | docs/drawing.js:560-630 | The handler's effect on the state follows its chain of tests: Ctrl/Cmd+A selects everything, Ctrl/Cmd+D duplicates the selection, Delete or plain Backspace deletes it, `]` and `[` move the focus, Ctrl/Cmd+Backspace deselects the focused item, and any other key changes nothing. |
| Editor.CtrlBackspaceOnState | docs/drawing.js:609-629 | As written, Ctrl/Cmd+Backspace on a non-empty selection deletes every selected overlay from the lists. With the correction it only deselects the focused item and leaves the lists unchanged. |
| DrawingPage.Drawing.constructor | docs/drawing.js:155-159 | The page starts with empty lists, zero counters, no selection and focus -1. |
| DrawingPage.Drawing.UpdateFocusAfterSelection | docs/drawing.js:287-291 | Only the focus changes, and it is clamped to the selection. |
| DrawingPage.Drawing.ToggleSelection | docs/drawing.js:273-282 | Ends in `Editor.Toggle` of the state before and keeps the invariant. |
| DrawingPage.Drawing.ClearSelection | docs/drawing.js:283-286 | The `forEach` that unflags each selected overlay ends in `Editor.Clear`. |
| DrawingPage.Drawing.ClickSelect | docs/drawing.js:267-272 | Ends in `Editor.Click`. |
| DrawingPage.Drawing.DeselectFocused | docs/drawing.js:292-298 | Ends in `Editor.Deselect`. |
| DrawingPage.Drawing.CycleFocus | docs/drawing.js:625-626 | Ends in `Editor.Cycle`. |
| DrawingPage.Drawing.TurnOnEach | docs/drawing.js:588 | The `forEach(toggleSelection(overlay, true))` loop ends in `Editor.ToggleAllOn`. |
| DrawingPage.Drawing.SelectAll | docs/drawing.js:585-591 | Ends in `Editor.SelectEverything`. |
| DrawingPage.Drawing.HandleDelete | docs/drawing.js:452-461 | The splicing loop ends in `Editor.DeleteSelected`. |
| DrawingPage.Drawing.AddEntry | docs/drawing.js:220-230 | The `push` onto the category's list ends in `Editor.Add` and returns the fresh overlay. |
| DrawingPage.Drawing.RegisterOverlay | docs/drawing.js:220-230 | `++counter` and the `push` end in `Editor.Register`. |
| DrawingPage.Drawing.CompleteOverlay | docs/drawing.js:204-236 | The `overlaycomplete` handler ends in `Editor.Complete`. |
| DrawingPage.Drawing.CreateRoadCorridor | docs/drawing.js:966-975 | Ends in `Editor.Road`. |
| DrawingPage.Drawing.CountedRoad | docs/drawing.js:899 | `prefix + (++roadsCounter)`, then the corridor, ends in `Editor.CountedRoad`; the free-road tool (line 212) does the same with `Road `. |
| DrawingPage.Drawing.FinishFreeRoad | docs/drawing.js:208-215 | Ends in `Editor.FreeRoad`. |
| DrawingPage.Drawing.ApplyRoads | docs/drawing.js:902-933 | The `for i = 1 .. n` loop ends in `Editor.Roads`, alert included. |
| DrawingPage.Drawing.PerimeterRoad | docs/drawing.js:889-901 | Ends in `Editor.PerimeterRoad`, alert included. |
| DrawingPage.Drawing.CopyBuffer | docs/drawing.js:850-863 | The `buffer.forEach` loop ends in `Editor.RegisterAll`. |
| DrawingPage.Drawing.CopyRow | docs/drawing.js:845-864 | The inner loop over the columns extends the grid state and the target list by one row, skipping (0, 0). |
| DrawingPage.Drawing.ApplyGrid | docs/drawing.js:836-868 | The nested loops end in `Editor.Grid`, and the targets are `Layout.GridTargets` over the grid's cells. |
| DrawingPage.Drawing.DuplicateSelectionAt | docs/drawing.js:389-424 | `clearSelection`, then the loop that registers each buffered item's copy and turns it on, ends in `Editor.DuplicateSelected`. |
| DrawingPage.Drawing.KeyDown | docs/drawing.js:560-630 | The handler, with the correction below, ends in `Editor.KeyDown`. |
| Text.NatToString | docs/commands.js:71 | Decimal rendering of a counter: at least one digit, all digits, one digit exactly below 10, and the last digit is `n % 10`. |
| Text.NatToStringValue | docs/commands.js:71 | The digits denote n, and the first digit is 0 only for n = 0 (no leading zeros). |
| Text.NatToStringInjective | docs/commands.js:71 | Different counters render differently. |
| Base64.Latin1 | docs/commands.js:14 | `String.fromCharCode` over bytes: one character per byte, whose code is the byte. |
| Base64.Latin1Window | docs/commands.js:14 | The characters of a prefix followed by those of the next window are the characters of the longer prefix. |
| Base64.SextetRoundTrip | docs/commands.js:15 | Each of the 64 alphabet characters decodes back to its value (section 4 of RFC 4648). |
| Base64.Encode | docs/commands.js:15 | Base64 output has 4 characters per started group of 3 bytes, and `=` appears only in the last two positions. |
| Base64.DecodeEncode | docs/commands.js:15 | Decoding the encoding gives the bytes back. |
| Base64.Btoa | docs/commands.js:15 | `btoa` succeeds exactly when every character code is below 256. |
| Base64.BtoaOfLatin1 | docs/commands.js:14-15 | On a string built from bytes, `btoa` never throws and yields the Base64 encoding of those bytes. |
| Base64.WindowsExtend | docs/commands.js:13-14 | Adding the next window keeps the windows a contiguous cover: they start at 0, each begins where the previous ended, each but the last holds 0x8000 bytes, and none is empty. |
| Base64.ArrayBufferToBase64 | docs/commands.js:12-16 | The chunked loop returns the Base64 encoding of all the bytes, and its windows cover every byte once and in order. |
| Sheets.CandidateInjective | docs/commands.js:71 | `${desired} (${i})` differs for different i. |
| Sheets.NotYetPassed | docs/commands.js:70-71 | A candidate not yet tried is not among those already tried, which bounds the loop by the number of existing names. |
| Sheets.UniqueSheetName | docs/commands.js:64-73 | The name returned is never taken. It is `desired` when that name is free, and otherwise `desired (i)` for the least i ≥ 2 that is free. |
| Sheets.InsertAllSheets | docs/commands.js:99-118 | There is an error exactly when the sheet count did not grow. Otherwise the sheet at index `countBefore` is renamed (to a free name) or kept, and activated; the other sheets keep their names. |
| Messages.SplitJoin | docs/commands.js:32 | Lines without newlines are recovered from `join("\n")`. |
| Messages.Appended | docs/commands.js:33 | The new log starts with the old one. A newline separates them when the old log is not empty, and the new entry comes last. |
| Messages.LogToSheet | docs/commands.js:30-33 | The combined log is the old text (empty for an empty cell), then a newline if the old text is not empty, then `[stamp] add`. |
| Messages.ReplayFromEmpty | docs/commands.js:30-33 | Logging entries one after another, starting from an empty cell, leaves them joined by newlines. |
| Messages.EscapeLt | docs/commands.js:44 | The escaped text holds no `<`, is at least as long as the message, and equals the message when it has no `<`. |
| Messages.EscapeLtConcat | docs/commands.js:44 | The escape works character by character: escaping two joined texts joins their escapes. |
| Messages.EscapeLtChar | docs/commands.js:44 | `<` becomes `&lt;`; any other character is kept. |
| Messages.UnescapeEscape | docs/commands.js:44 | A message without `&` reads back unchanged once `&lt;` is shown as `<`. |
| Messages.TypedEntityShowsLt | docs/commands.js:44 | A message that already holds `&lt;` is not escaped again, and shows as `<`. |

## Left out

- The Maps library is not modelled: rendering, the drawing manager, labels, styles and map events. Overlays are values, and a fresh id stands for a new Maps object.
- `computeOffset`, `computeHeading`, `computeDistanceBetween`, `Circle.getBounds`, `averageHeading` and `signedAreaApprox` are parameters (fields of `Geometry.Sphere`), because they are spherical or floating-point arithmetic. Coordinates are `real`, and `LatLng.equals` is exact equality.
- `getAreasUnionBounds` is not computed. Its bounds are a parameter of `DrawingPage.Drawing.ApplyRoads`; only whether they exist (some selected or drawn area) is modelled. Likewise the group centre and the item centres of grid apply are parameters.
- `rebuildShapeAt` and `serializeWithCenter` are not modelled. A grid copy keeps its category and kind, and its target centre is computed (`Layout.GridTargets`), but the rebuilt shape is not.
- DrawingPage.Drawing.CreateRoadCorridor: the corridor polygon is computed (`Geometry.CorridorFromPath`) and handed to the map, but it is not kept in the page state.
- Inputs read from the page (`parseInt`, `Number`, `parseFloat`) arrive as integers and reals. A `NaN` from a malformed field is not modelled.
- The area summary, `computeArea`, `fmt` and the marquee projection are not modelled, because they are floating-point arithmetic and DOM output.
- Move, drag, nudge, rotate, align and distribute are not modelled: they move shapes through Maps calls. So are the tool switches and Escape, which change only the UI mode and buttons (Ctrl/Cmd+D also clicks the distribute button, which only opens its popover).
- Copy and paste (`handleCopy`, `placeGroupAt`, docs/drawing.js:364-388) are not modelled: the copy buffer kept between Ctrl/Cmd+C and the pasting click is not part of the page state here.
- DrawingPage.Drawing.DuplicateSelectionAt: where the copies are placed (the group centre moved 5 m east and 5 m south, then `rebuildShapeAt`) is not modelled; the copies' categories, kinds, names and selection are. Copies of areas keep `tilt` and `azimuth`, which are not modelled.
- Geometry.RoadLinesInside: the union bounds are assumed to have the west edge west of the east edge. For bounds across the antimeridian the source's vertical roads fall outside the areas, as Geometry.RoadLinesWrapped shows; the source does not handle that case.
- `applyModeFlags`, `showGroupHandle` and the editable, draggable and style settings are not modelled. They are UI effects; only the `__selected` flag is kept, as the set `flagged`.
- `handleDelete` leaves the `__selected` flag set on deleted overlays, as the source does. The model keeps those flags; the invariant only speaks of listed overlays.
- DrawingPage.Drawing.ApplyGrid returns early when rows or cols is not positive, where the source runs empty loops. The resulting state is the same.
- Sheets.UniqueSheetName takes the existing names as a sequence and compares them exactly. Excel's case-insensitive comparison and its 31-character limit on sheet names are not modelled.
- Excel, Office and the network are not modelled: `Excel.run`, `context.sync`, `insertWorksheetsFromBase64`, `displayWebDialog`, `fetch`, and the command handlers' try/catch flow. The sheet names before and after an insert are parameters of `Sheets.InsertAllSheets`.
- The timestamp from `new Date().toISOString()` is a parameter of `Messages.LogToSheet`.
- The `String(lines)` conversion of a non-string argument is not modelled; only text and arrays of text are.
- `encodeURIComponent` of the dialog HTML is not modelled.

## Findings

| source | as written | input that shows it | evidently intended | confidence | as-written member | corrected member |
|---|---|---|---|---|---|---|
| docs/drawing.js:609-629 | The keydown handler tests `key === 'Delete' \|\| key === 'Backspace'` without looking at Ctrl/Cmd. So Ctrl/Cmd+Backspace first runs `handleDelete`, which removes every selected overlay from the map and the lists and empties the selection. Only then does it run `deselectFocused`, which finds nothing to deselect. | Two overlays selected, focus 0, key "Backspace" with Ctrl pressed: both overlays are deleted. | The commented intent is "Deselect focused item (Ctrl/Cmd + Backspace)": remove only the focused overlay from the selection and keep every shape. Plain Backspace should be the only one that deletes. | not executed | Layout.KeyActionsAsWritten (shown by Layout.CtrlBackspaceDeletes and Editor.CtrlBackspaceOnState) | Layout.KeyActions, used by Editor.KeyDown and DrawingPage.Drawing.KeyDown |
| docs/drawing.js:944-963 | `getPerimeterPath` picks a branch by the methods the overlay has. A `google.maps.Circle` has `getBounds`, so it takes the rectangle branch, and the circle branch is never reached for a circle. | A circular area selected, then Perimeter Road: the road follows the circle's bounding box, a 4-corner square. | The circle branch: 64 points on the circle, so the road follows the circle. | not executed | Geometry.PerimeterAsWritten (shown by Geometry.CirclePerimeterAsWritten) | Geometry.Perimeter, computed by Geometry.GetPerimeterPath and used by Editor.PerimeterRoad |
