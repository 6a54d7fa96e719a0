# Alberti bookkeeping, modelled in Dafny

Alberti is a perspective-drawing editor that runs in the browser. This project
models the non-graphical bookkeeping of its JavaScript client:

- the layer stack and shape index of `LayerManager`, over `Layer` records;
- the bounded, grouped undo history of `UndoManager`;
- the reference-counted snap-point store: `SpatialHash`, and the
  insert / delete / bulk-delete / nop protocol of `SnapPoints` and
  `Intersection`, with its deferred `flush`;
- the small registries and state machines: `EventHandler`, `AutoScale`,
  `GuiButtonFamily`, `GuiDropTargetFamily`, `ClipBoard`, `Zap`, and the
  clock-direction logic of `ToolArc` and `ToolCircleArc`;
- the pure helpers of `Rect2D` and `Util`.

Objects whose fields the JavaScript updates in place are Dafny classes, with
`modifies` frames on their methods. Arrays the source mutates are `seq` fields
that the methods reassign, and dictionaries are `map` fields. Loops in the
source are `while` loops with invariants. Each method is proved against a
specification function or predicate, and lemmas prove what the source promises
about those functions.

Conventions:

- `Util.assert`, and every call that would throw, becomes an `Err` result of
  the `Result` type in `wrappers.dfy`. `undefined` and `null` become `None`.
- JavaScript's `indexOf` and `splice` are `IndexOf`, `SpliceIn`, `SpliceOut`
  and `RemoveAt` in `seqs.dfy`. This includes their behaviour at -1:
  `splice(-1, 1)` removes the last element.
- Shapes are objects of class `Shapes.Shape` with a `shapeName` and an sid.
  Their SVG nodes are not modelled.
- Snap and intersection points are integer pairs. The three-decimal lookup
  key of `SpatialHash` is the point itself. The bucket key is
  `RoundToMultiple` of each coordinate, which is exact on integers. The search
  radius is a `real`. `SnapPoints` compares distances as squared integer
  distances, which order points the same way as the Euclidean distance.
- The geometry routines (intersections and tangencies of lines, arcs and
  rectangles) are a `GeometryTable` parameter. It maps the concatenated
  names of two shape classes to a function from the two shapes to their
  common points. A name that is missing yields no points, as a missing
  method does in the source.
- The following are parameters rather than globals:
  - the current time (`Date.now()`) for `EventHandler` and `Zap`;
  - the mousemove refresh interval;
  - the snap radius;
  - `maxActions` of the undo manager, which is 50 in `Alberti.js` and 100
    in `Conf.js`.
- The angles `halfPi` (1.5707963267948966) and `Pi` (3.141592653589793) are
  `real` constants.
- JavaScript's truncating `%` is written out as `JsRemTwo`, because Dafny's
  `%` is Euclidean.
- `LayerManager` keeps three ghost fields:
  - `hiddenFlags`, which mirrors the layers' hidden flags;
  - `contents`, which mirrors each known layer's shape list;
  - `sidOf`, which records the sid each indexed shape carries.

  The predicates `Valid`, `Mirrored`, `Indexed`, `Tagged` and `Counted` state
  its invariants: distinct layers, a current index that is -1 or a layer,
  an index that agrees with the layers, and `shapeCount` equal to the number
  of records.

Several behaviours of the source differ from what its comments promise. The
model keeps these as written and states them in the contracts:

- `deleteCurrentLayer` splices at the index it has just switched to. Above
  the bottom layer, this removes the layer below the target, and the emptied
  target stays. `DeleteCurrentLayerFixed` models the behaviour its comment
  and its undo action promise (see Findings).
- `deleteShape` reads the shape record before asserting that it exists. An
  unknown sid therefore fails with a TypeError, and the assertion itself can
  never fail.
- `Layer.removeShape` of a shape the layer does not hold removes its last
  shape.
- `undo` and `redo` leave the manager enabled whatever its prior state. A
  `redo` pushes without the bound, so the undo stack can grow past
  `maxActions`.
- `DOMMouseScroll` compares `typeof evt.axis` with `undefined` rather than
  with `"undefined"`. The test is always false, so only `VERTICAL_AXIS`
  decides.
- `DOMMouseScroll` tests `evt.VERTICAL_AXIS`, the event interface's
  constant for the vertical axis, not the event's own axis. The constant is
  always truthy, so horizontal scrolls zoom too.
- `ToolCircleArc.executeStep(1)` falls through to the default branch, where
  `(1 - 2) % 2` is -1 and matches neither case.

- `SnapPoints.getNearestNeighbor` and `Intersection.getNearbyIntersection`
  take their candidates from the as-written `search`, so they can miss a
  stored point in the square that lies in a cell `search` skips.

The four bugs listed under Findings also have a corrected model.

Files: `wrappers.dfy` (`Option`, `Result`), `seqs.dfy` (array operations),
`util.dfy`, `rect2d.dfy`, `shapes.dfy`, `layer.dfy`, `layermanager.dfy`,
`undomanager.dfy`, `spatialhash.dfy`, `snappoints.dfy`, `intersection.dfy`,
`eventhandler.dfy`, `autoscale.dfy`, `guibuttonfamily.dfy`,
`guidroptargetfamily.dfy`, `clipboard.dfy`, `zap.dfy`, `toolarc.dfy` and
`toolcirclearc.dfy`.

## Model

| member | source | states |
|---|---|---|
| Util.Peek | web/htdocs/js/core/Util.js:18-20 | The result is present exactly for a non-empty array, and is then its last element. |
| Util.PeekAfterPush | web/htdocs/js/core/Util.js:18-20 | Peeking right after a push returns the pushed element. |
| Util.MinMax | web/htdocs/js/core/Util.js:107-109 | When min ≤ max the result lies in [min, max]. It is x when x is in range, and the nearer bound otherwise. When max < min the result is min. |
| Util.MinMaxIdempotent | web/htdocs/js/core/Util.js:107-109 | Clamping a clamped value again changes nothing. |
| Util.Sign | web/htdocs/js/core/Util.js:154-156 | The result is 1, 0 or -1 exactly when x is positive, zero or negative. |
| Util.Between | web/htdocs/js/core/Util.js:171-177 | True exactly when the rounded x lies between the rounded u and v, in either order. |
| Util.BetweenSymmetric | web/htdocs/js/core/Util.js:171-177 | Swapping u and v does not change the answer. |
| Util.BetweenEndpoint | web/htdocs/js/core/Util.js:171-177 | Both endpoints lie between u and v. |
| Util.BetweenInterval | web/htdocs/js/core/Util.js:171-177 | With a monotone rounding, every x in [u, v] lies between u and v. |
| Rect2D.Rect.Clone | web/htdocs/js/core/geometry/Rect2D.js:17-25 | The clone has the same four sides. |
| Rect2D.FromPoints | web/htdocs/js/core/geometry/Rect2D.js:29-31 | The result is well formed (left ≤ right, top ≤ bottom), and each side is a coordinate of one of the two points. |
| Rect2D.FromPointsSymmetric | web/htdocs/js/core/geometry/Rect2D.js:29-31 | The order of the two points does not matter. |
| Rect2D.FromPointsContainsCorners | web/htdocs/js/core/geometry/Rect2D.js:29-31 | Both points lie inside the rectangle. |
| Rect2D.IntersectsSymmetric | web/htdocs/js/core/geometry/Rect2D.js:34-36 | Intersection is symmetric. |
| Rect2D.NoSelfEnclosure | web/htdocs/js/core/geometry/Rect2D.js:39-41 | Enclosure is strict, so no rectangle encloses itself. |
| Rect2D.EnclosesImpliesIntersects | web/htdocs/js/core/geometry/Rect2D.js:34-41 | A rectangle that encloses a well-formed rectangle also intersects it. |
| Rect2D.IntersectsSelf | web/htdocs/js/core/geometry/Rect2D.js:34-36 | A well-formed rectangle intersects itself. |
| Shapes.Shape.constructor | web/htdocs/js/alberti/Shape.js:9-12 | A new shape has the given class name and no sid. |
| Shapes.Shape.Clone | web/htdocs/js/alberti/Circle.js:29-35 | The clone is a new object of the same class, with no sid. |
| Layers.Layer.constructor | web/htdocs/js/alberti/Layer.js:13-18 | A new layer has no name and no shapes, and is not hidden. |
| Layers.Layer.AddShape | web/htdocs/js/alberti/Layer.js:21-24 | The shape is appended at the end of the list. |
| Layers.Layer.RemoveShape | web/htdocs/js/alberti/Layer.js:27-30 | A present shape loses its first occurrence and the others keep their order. For an absent shape, the last shape is removed. |
| Layers.Layer.Hide | web/htdocs/js/alberti/Layer.js:32-37 | The layer is hidden afterwards, whatever its prior state. |
| Layers.Layer.Show | web/htdocs/js/alberti/Layer.js:39-44 | The layer is visible afterwards, whatever its prior state. |
| Layers.Layer.SetName | web/htdocs/js/alberti/Layer.js:46-49 | The name is the given one. |
| Layers.Layer.IsHidden | web/htdocs/js/alberti/Layer.js:51-53 | Returns the flag that `hide` and `show` set. |
| LayerManagers.CountHidden | web/htdocs/js/alberti/LayerManager.js:183 | The number of hidden layers is at most the number of layers. |
| LayerManagers.CountHiddenAppend | web/htdocs/js/alberti/LayerManager.js:45-57 | The hidden count of two stacks put together is the sum of their counts. |
| LayerManagers.CountHiddenUpdate | web/htdocs/js/alberti/LayerManager.js:183-204 | Hiding or showing one layer moves the count by one, exactly when the flag changes. |
| LayerManagers.CountHiddenSpliceIn | web/htdocs/js/alberti/LayerManager.js:63-84 | Inserting a layer anywhere adds its flag to the count. |
| LayerManagers.CountHiddenRemove | web/htdocs/js/alberti/LayerManager.js:131 | Removing a layer takes its flag off the count. |
| LayerManagers.SomeVisible | web/htdocs/js/alberti/LayerManager.js:199-202 | If fewer layers are hidden than exist, some layer is visible. |
| LayerManagers.FirstVisible | web/htdocs/js/alberti/LayerManager.js:239-247 | Returns the lowest visible index at or above `start`, with every layer in between hidden. Returns -1 exactly when no such layer exists. |
| LayerManagers.LastVisible | web/htdocs/js/alberti/LayerManager.js:251-259 | Returns the highest visible index at or below `start`, with every layer in between hidden. Returns -1 exactly when no such layer exists. |
| LayerManagers.HideKeepsVisible | web/htdocs/js/alberti/LayerManager.js:199-224 | Suppose two or more layers are visible. Hiding a visible one leaves a visible layer, and the current layer moves to a different visible layer. |
| LayerManagers.Decimal | web/htdocs/js/alberti/LayerManager.js:282 | The numeral of the counter is non-empty and made of decimal digits. |
| LayerManagers.DecimalRoundTrip | web/htdocs/js/alberti/LayerManager.js:282 | Reading the numeral back gives the counter. |
| LayerManagers.GeneratedSid | web/htdocs/js/alberti/LayerManager.js:282 | A generated sid starts with "s" and has at least one digit after it. |
| LayerManagers.GeneratedSidsDiffer | web/htdocs/js/alberti/LayerManager.js:281-298 | Different counter values give different sids. |
| LayerManagers.ArgShapes | web/htdocs/js/alberti/LayerManager.js:400-412 | Definition (no contract): the argument as an array, with an array as is, a single shape as a one-element array, and null as the empty array. |
| LayerManagers.XorAllMembers | web/htdocs/js/alberti/LayerManager.js:411-425 | The selection stays duplicate-free. A shape ends up selected exactly when it was selected or occurs an odd number of times among the given shapes, but not both. |
| LayerManagers.XorTwice | web/htdocs/js/alberti/LayerManager.js:411-425 | Applying `xorSelection` twice with the same shapes restores the selected set. |
| LayerManagers.ListedIsIndexed | web/htdocs/js/alberti/LayerManager.js:296 | While the index agrees with the layers, every shape a layer lists is indexed under its non-empty sid, with that layer. |
| LayerManagers.AgreesAddShape | web/htdocs/js/alberti/LayerManager.js:289-298 | Appending an unlisted shape to a layer and indexing it under a fresh sid keeps the index in agreement. |
| LayerManagers.AgreesRemoveShape | web/htdocs/js/alberti/LayerManager.js:306-318 | Dropping a record and unlisting its own shape from its layer keeps the index in agreement. |
| LayerManagers.MirrorSpliceIn | web/htdocs/js/alberti/LayerManager.js:75 | Inserting a layer and its flag at the same position keeps the flags in step with the layers. |
| LayerManagers.RecordsOutside | web/htdocs/js/alberti/LayerManager.js:102-110 | Definition (no contract): the records that name another layer, unchanged. `OutsideExactly` characterises it. |
| LayerManagers.OutsideExactly | web/htdocs/js/alberti/LayerManager.js:102-110 | A sub-index that keeps every record of other layers and none of the target's is exactly the records outside the target. |
| LayerManagers.MirrorRemoveAt | web/htdocs/js/alberti/LayerManager.js:131 | Removing a layer and its flag at the same index keeps the flags in step with the layers. |
| LayerManagers.LayerManager.constructor | web/htdocs/js/alberti/LayerManager.js:8-30 | A new manager has no layers, no current layer (-1), no hidden layers, no shapes and no selection, and its sid counter is 1. All invariants hold. |
| LayerManagers.LayerManager.SwitchToLayer | web/htdocs/js/alberti/LayerManager.js:138-157 | Switching to the current index succeeds and changes nothing. Any other index fails unless it names a visible layer. On success, that layer becomes current. |
| LayerManagers.LayerManager.GetNextHighestVisibleLayer | web/htdocs/js/alberti/LayerManager.js:239-247 | Returns the nearest visible layer strictly above the start, or -1. A missing or 0 argument starts from the current layer. |
| LayerManagers.LayerManager.GetNextLowestVisibleLayer | web/htdocs/js/alberti/LayerManager.js:251-259 | Returns the nearest visible layer strictly below the start, or -1. A missing or 0 argument starts from the current layer. |
| LayerManagers.LayerManager.HideAt | web/htdocs/js/alberti/LayerManager.js:204-206 | Layer n becomes hidden and the hidden count goes up by one. |
| LayerManagers.LayerManager.ShowAt | web/htdocs/js/alberti/LayerManager.js:183-185 | Layer n becomes visible and the hidden count goes down by one. |
| LayerManagers.LayerManager.LeaveCurrentLayer | web/htdocs/js/alberti/LayerManager.js:220-224 | The current layer moves to the nearest visible layer above, else below, else stays. |
| LayerManagers.LayerManager.SetLayerVisibility | web/htdocs/js/alberti/LayerManager.js:176-235 | Fails for an index that names no layer. Hiding a visible layer also fails unless another layer is visible. Otherwise the flag is set, and the hidden count moves by one only if the flag changed, so it stays equal to the number of hidden layers. Hiding the current layer first moves the current layer to the nearest visible layer above, else below. |
| LayerManagers.LayerManager.FreshLayer | web/htdocs/js/alberti/LayerManager.js:34-41 | A new layer with the given name and hidden flag and no shapes. The manager is unchanged. |
| LayerManagers.LayerManager.PlaceLayer | web/htdocs/js/alberti/LayerManager.js:74-75 | The layer is spliced in at the index, the other layers keep their order, and the flags follow. |
| LayerManagers.LayerManager.InsertLayer | web/htdocs/js/alberti/LayerManager.js:63-84 | Places the layer above the current layer, or at the current index when `before` is set, and keeps the other layers in order. Then it switches to that index. With `before` unset, the switch fails exactly when the new layer is hidden. On success the new layer is current, unless it was inserted before with no current layer. |
| LayerManagers.LayerManager.NewLayer | web/htdocs/js/alberti/LayerManager.js:34-41 | Creates a visible layer named `name`, or "Layer k" (k = number of layers + 1) when `name` is missing or empty. The layer is inserted above the current one and made current, and the hidden count stays right. |
| LayerManagers.LayerManager.NewLayerFromGroup | web/htdocs/js/alberti/LayerManager.js:45-57 | Creates a layer named by the group's title. It is hidden, and counted hidden, exactly when the group's visibility is "hidden". It is inserted above the current layer, and the switch to it fails exactly when it is hidden. |
| LayerManagers.LayerManager.AppendShape | web/htdocs/js/alberti/LayerManager.js:288-289 | The shape is appended to the target layer and to that layer's mirror. |
| LayerManagers.LayerManager.UnlistRecord | web/htdocs/js/alberti/LayerManager.js:314-318 | The record goes, the count drops by one, and the layer runs `removeShape` on the shape. |
| LayerManagers.LayerManager.IndexShape | web/htdocs/js/alberti/LayerManager.js:296-298 | The shape is recorded under its sid with its layer, and both counters go up by one. The index then agrees with the layer lists once that layer has the shape appended. |
| LayerManagers.LayerManager.AddRecord | web/htdocs/js/alberti/LayerManager.js:289-298 | A shape that is not yet listed, with a fresh sid, is appended to its layer and indexed, and every invariant is kept. |
| LayerManagers.LayerManager.AssignSid | web/htdocs/js/alberti/LayerManager.js:278-284 | A shape without an sid gets "s" followed by the counter. If the resulting sid is not indexed, no layer lists the shape. The current layer's shapes are unchanged. |
| LayerManagers.LayerManager.InsertShape | web/htdocs/js/alberti/LayerManager.js:277-301 | Assigns "s"+counter to a shape without an sid (kept even on failure). Fails exactly for an indexed sid, or for no target and no current layer. Otherwise the shape is appended to the given layer, else the current one, recorded under its sid, and both counters rise by one. On failure the index and the layers are unchanged. The layer stack and the current layer never change, and with no target the current layer gains exactly the shape on success. |
| LayerManagers.LayerManager.PlaceShape | web/htdocs/js/alberti/LayerManager.js:286-300 | The duplicate check and the append of `insertShape`, with the same success and failure cases. The layer stack and the current layer stay the same. |
| LayerManagers.LayerManager.RemoveRecord | web/htdocs/js/alberti/LayerManager.js:308-318 | The sid's record goes, the count drops by one, and the record's layer runs `removeShape`. When the record is the shape's own, the index stays consistent. |
| LayerManagers.LayerManager.DeleteShape | web/htdocs/js/alberti/LayerManager.js:306-325 | An unknown sid fails, because the record is read before the assertion, and nothing changes. Otherwise it returns the shape: its record goes, the count drops by one, and the record's layer runs `removeShape` on it. `shapeCount` stays equal to the number of records. |
| LayerManagers.LayerManager.DeleteCurrentLayer | web/htdocs/js/alberti/LayerManager.js:90-134 | Fails with one layer or none current. Otherwise the current layer loses every shape and every record, and the other records stay. It then switches to the layer below (or stays at 0), which fails if that layer is hidden. Last, the layer at the new current index is removed. At index 0 that is the target. Above 0 it is the layer below, and the emptied target stays, now current. |
| LayerManagers.LayerManager.ClearAndSplice | web/htdocs/js/alberti/LayerManager.js:93-131 | With more than one layer and a current one: the target loses every shape and only its records go, then the switch and the splice happen with the outcome stated for `DeleteCurrentLayer`. |
| LayerManagers.LayerManager.SwitchAndSplice | web/htdocs/js/alberti/LayerManager.js:121-131 | Switches to the layer below (or stays at 0), then removes the layer at the new current index, with the outcome stated for `DeleteCurrentLayer`. |
| LayerManagers.LayerManager.DeleteCurrentLayerFixed | web/htdocs/js/alberti/LayerManager.js:86-134 | The same failures as `DeleteCurrentLayer`; with none, the target is emptied and only its records go. On success the target itself is removed at its index, with its flag, and the current layer is the former layer below it, or at the bottom the former layer above it. |
| LayerManagers.LayerManager.ClearAndSpliceFixed | web/htdocs/js/alberti/LayerManager.js:93-131 | With more than one layer and a current one: the target is emptied and only its records go, then the switch and the corrected splice happen with the outcome stated for `DeleteCurrentLayerFixed`. |
| LayerManagers.LayerManager.SwitchAndSpliceFixed | web/htdocs/js/alberti/LayerManager.js:121-131 | Switches to the layer below (or stays at 0), failing when that layer is hidden, and then removes the target at its own index. The new current layer is the former one below, or at the bottom the former one above. |
| LayerManagers.LayerManager.DropLayer | web/htdocs/js/alberti/LayerManager.js:131 | `splice(n, 1)` on the layers and their flags. |
| LayerManagers.LayerManager.ClearLayer | web/htdocs/js/alberti/LayerManager.js:102-110 | The layer ends with no shapes. Exactly the records naming it are gone. |
| LayerManagers.LayerManager.DeleteLastShape | web/htdocs/js/alberti/LayerManager.js:103-109 | One round of the loop: the layer is one shorter, only records naming it can go, and the invariants are kept. |
| LayerManagers.LayerManager.ClearSelections | web/htdocs/js/alberti/LayerManager.js:386-393 | Nothing is selected. |
| LayerManagers.LayerManager.SetSelection | web/htdocs/js/alberti/LayerManager.js:398-406 | The selection is the given array, the one given shape, or nothing for null. Null and an empty array both leave nothing selected. |
| LayerManagers.LayerManager.XorSelection | web/htdocs/js/alberti/LayerManager.js:411-425 | Each given shape, in order, is deselected if selected and appended otherwise. `XorAllMembers` and `XorTwice` give the resulting membership. |
| LayerManagers.LayerManager.GetVisibleShapes | web/htdocs/js/alberti/LayerManager.js:428-440 | The result holds exactly the indexed shapes whose layer is not hidden, each once. |
| Undo.Bounded | web/htdocs/js/alberti/UndoManager.js:41-47 | The result is a suffix of the stack with the entry on top, one entry shorter exactly when the stack already held `maxActions` entries. Under a positive bound that the stack respects, the result respects it too and ends with the entry. |
| Undo.UndoTokensFront | web/htdocs/js/alberti/UndoManager.js:122-131 | The first action's undo token is run last. |
| Undo.RunUndoTokens | web/htdocs/js/alberti/UndoManager.js:122-131 | The loop of `undo` runs the entry's undo tokens, last action first, skipping actions without one. |
| Undo.RunRedoTokens | web/htdocs/js/alberti/UndoManager.js:155-159 | The loop of `redo` runs every redo token, first action first. |
| Undo.UndoManager.constructor | web/htdocs/js/alberti/UndoManager.js:8-16 | A new manager is disabled, with both stacks empty and no buffer. |
| Undo.UndoManager.Push | web/htdocs/js/alberti/UndoManager.js:30-53 | The new state is `push` on the old one. The lemmas below give what that means. |
| Undo.UndoManager.Enable | web/htdocs/js/alberti/UndoManager.js:58-60 | Only the flag changes, to enabled. |
| Undo.UndoManager.Disable | web/htdocs/js/alberti/UndoManager.js:63-65 | Only the flag changes, to disabled. |
| Undo.UndoManager.GetStackSize | web/htdocs/js/alberti/UndoManager.js:68-70 | Returns the number of undo entries. |
| Undo.UndoManager.ClearStack | web/htdocs/js/alberti/UndoManager.js:73-76 | Both stacks are emptied. The buffer and the flag stay. |
| Undo.UndoManager.RecordStart | web/htdocs/js/alberti/UndoManager.js:85-91 | Succeeds exactly when no buffer is open, and then opens an empty one. On failure nothing changes. |
| Undo.UndoManager.RecordStop | web/htdocs/js/alberti/UndoManager.js:94-105 | The new state is `recordStop` on the old one. See `RecordStopPushesNonEmpty`. |
| Undo.UndoManager.Undo | web/htdocs/js/alberti/UndoManager.js:108-138 | Runs the top entry's undo tokens in reverse and moves the entry to the redo stack. The manager ends enabled. |
| Undo.UndoManager.Redo | web/htdocs/js/alberti/UndoManager.js:141-166 | Runs the top redo entry's redo tokens in order and moves the entry back. The manager ends enabled. |
| Undo.PushDisabledIsNoop | web/htdocs/js/alberti/UndoManager.js:30-31 | While disabled, `push` changes nothing. |
| Undo.PushClearsRedo | web/htdocs/js/alberti/UndoManager.js:50-51 | An enabled `push` empties the redo stack. |
| Undo.PushAppends | web/htdocs/js/alberti/UndoManager.js:41-47 | Outside recording, `push` adds one single-action entry on top. The stack grows by one unless that would exceed `maxActions`. |
| Undo.PushWhileRecording | web/htdocs/js/alberti/UndoManager.js:39-40 | During recording, `push` extends the buffer and leaves the undo stack alone. |
| Undo.BoundKept | web/htdocs/js/alberti/UndoManager.js:41-101 | `push`, `recordStop` and `undo` never take the undo stack past `maxActions`. |
| Undo.RecordStartTwiceFails | web/htdocs/js/alberti/UndoManager.js:85-91 | A second `recordStart` fails. |
| Undo.RecordStopPushesNonEmpty | web/htdocs/js/alberti/UndoManager.js:94-105 | The buffer is always closed. It becomes one entry on top exactly when it is non-empty, and otherwise the undo stack is unchanged. |
| Undo.UndoTokensReverse | web/htdocs/js/alberti/UndoManager.js:122-131 | For a recorded group, `undo` runs all the undo tokens, last action first. |
| Undo.RedoTokensInOrder | web/htdocs/js/alberti/UndoManager.js:155-159 | `redo` runs every redo token, first action first. |
| Undo.UndoMovesOneEntry | web/htdocs/js/alberti/UndoManager.js:115-137 | `undo` moves one entry from the undo stack to the redo stack, or nothing when the undo stack is empty. It ends enabled. |
| Undo.RedoMovesOneEntry | web/htdocs/js/alberti/UndoManager.js:148-165 | `redo` moves one entry from the redo stack to the undo stack, or nothing when the redo stack is empty. It ends enabled. |
| Undo.RedoAfterUndo | web/htdocs/js/alberti/UndoManager.js:108-166 | `redo` after `undo` restores both stacks. |
| Undo.UndoEnablesDisabled | web/htdocs/js/alberti/UndoManager.js:137 | `undo` re-enables a disabled manager, so a later `push` is recorded. |
| Undo.RedoCanExceedBound | web/htdocs/js/alberti/UndoManager.js:141-166 | `redo` pushes without the bound. With a bound of 1, a reachable sequence of calls ends with two undo entries. |
| SpatialHashes.RoundToMultiple | web/htdocs/js/core/Util.js:90-93 | The result is the multiple of w nearest to x, with a tie going to the larger multiple. |
| SpatialHashes.RoundToMultipleIsMultiple | web/htdocs/js/core/Util.js:90-93 | The result is a multiple of w. |
| SpatialHashes.RoundToMultipleUnique | web/htdocs/js/core/Util.js:90-93 | Only one multiple of w is that close to x. |
| SpatialHashes.BucketIndex | web/htdocs/js/core/SpatialHash.js:225-227 | The bucket key of a point is the centre of the grid cell holding it. |
| SpatialHashes.InsertCount | web/htdocs/js/core/SpatialHash.js:141-165 | Definition (no contract): a point's count rises by one, starting from 1 for a new point. `InsertCountsAdd` and the `SpatialHash` methods state its effect. |
| SpatialHashes.RemoveCount | web/htdocs/js/core/SpatialHash.js:168-187 | Definition (no contract): a present point loses one instance and leaves when none is left, and an absent point is ignored. `RemoveCounts` and `RemoveCountsAppend` state its effect. |
| SpatialHashes.RemoveCounts | web/htdocs/js/core/SpatialHash.js:168-187 | After `remove(cs)`, no point appears that was not stored before. |
| SpatialHashes.InsertAllAppend | web/htdocs/js/core/SpatialHash.js:141-165 | Inserting a and then b is inserting a + b. |
| SpatialHashes.RemoveCountsAppend | web/htdocs/js/core/SpatialHash.js:167-219 | Removing a and then b is removing a + b. |
| SpatialHashes.MultInsertAll | web/htdocs/js/core/SpatialHash.js:141-165 | Inserting a list adds each point's number of occurrences in it. |
| SpatialHashes.MultRemoveCounts | web/htdocs/js/core/SpatialHash.js:167-187 | Removing a list takes away each point's occurrences, stopping at 0. |
| SpatialHashes.MultDetermines | web/htdocs/js/core/SpatialHash.js:162-187 | Positive counts are determined by how many instances they hold. |
| SpatialHashes.InsertAllRemoveAll | web/htdocs/js/core/SpatialHash.js:141-219 | Removing the points just inserted, in any order, restores the counts. |
| SpatialHashes.RemoveAfterInsert | web/htdocs/js/core/SpatialHash.js:141-187 | One removal undoes one insertion. |
| SpatialHashes.InsertNRemoveN | web/htdocs/js/core/SpatialHash.js:163-174 | n insertions of a point, then removal of n copies, restore the counts. |
| SpatialHashes.InsertCountsAdd | web/htdocs/js/core/SpatialHash.js:162-164 | n insertions of a point add n to its count. |
| SpatialHashes.RemoveRepeat | web/htdocs/js/core/SpatialHash.js:172-185 | n removals of a point take n from its count, and drop it when nothing is left. |
| SpatialHashes.Compact | web/htdocs/js/core/SpatialHash.js:189-218 | The compacted bucket has no nulls and is no longer than the original. |
| SpatialHashes.CompactAllSome | web/htdocs/js/core/SpatialHash.js:189-218 | A bucket without nulls is left as it is. |
| SpatialHashes.CompactPrefix | web/htdocs/js/core/SpatialHash.js:195-209 | Compacting a prefix gives a prefix of the compacted bucket. |
| SpatialHashes.CompactSlot | web/htdocs/js/core/SpatialHash.js:200-206 | The node in slot p lands in the next free slot, after the nodes before it. |
| SpatialHashes.CompactSource | web/htdocs/js/core/SpatialHash.js:195-209 | Every slot of the compacted bucket comes from a non-null slot of the original. |
| SpatialHashes.InsertNewLinked | web/htdocs/js/core/SpatialHash.js:145-161 | Appending a new point to its bucket and recording its slot keeps every lookup entry pointing at its node. No bucket gains a null. |
| SpatialHashes.RecountLinked | web/htdocs/js/core/SpatialHash.js:162-164 | Changing a known point's count keeps the links. |
| SpatialHashes.RemoveNodeLinked | web/htdocs/js/core/SpatialHash.js:172-185 | Nulling the slot of a point whose count reaches 0, and dropping its entry, keeps the links. The bucket is marked dirty. |
| SpatialHashes.Relocated | web/htdocs/js/core/SpatialHash.js:200-206 | Relocation changes only slot numbers, never which points have entries. |
| SpatialHashes.RelocateStep | web/htdocs/js/core/SpatialHash.js:200-206 | One round of the compaction loop gives the node in slot j, if any, the next free slot. |
| SpatialHashes.CompactLinked | web/htdocs/js/core/SpatialHash.js:189-218 | After compaction with relocated entries, every lookup entry still points at its node. A bucket left empty is deleted. |
| SpatialHashes.RelocatedCounts | web/htdocs/js/core/SpatialHash.js:204 | Relocation leaves the counts alone. |
| SpatialHashes.CountsOfInsert | web/htdocs/js/core/SpatialHash.js:141-165 | The counts the lookup table records after `insert` are those of `InsertCount`. |
| SpatialHashes.CountsOfRemove | web/htdocs/js/core/SpatialHash.js:172-185 | The counts the lookup table records after one release are those of `RemoveCount`. |
| SpatialHashes.Cells | web/htdocs/js/core/SpatialHash.js:102-119 | The home cell comes first, followed by exactly the neighbour combinations `search` adds. |
| SpatialHashes.Neighbour | web/htdocs/js/core/SpatialHash.js:102-110 | A neighbour is taken exactly when the query is within the radius of the cell edge. As written it is the home cell again when the query is on the centre line. |
| SpatialHashes.NeighbourFixed | web/htdocs/js/core/SpatialHash.js:102-110 | The corrected neighbour: taken in the same cases, and always an adjacent cell. |
| SpatialHashes.SearchCells | web/htdocs/js/core/SpatialHash.js:80-119 | The cells `search` looks in, as written. The home cell comes first. |
| SpatialHashes.SearchCellsFixed | web/htdocs/js/core/SpatialHash.js:80-119 | The cells searched with the corrected neighbour. The home cell comes first. |
| SpatialHashes.Near | web/htdocs/js/core/SpatialHash.js:128-136 | A bucket's nodes within the search square, and all of them. |
| SpatialHashes.Found | web/htdocs/js/core/SpatialHash.js:121-138 | The result holds exactly the nodes within the square that lie in an existing cell among those searched. |
| SpatialHashes.NeighbourFixedCovers | web/htdocs/js/core/SpatialHash.js:102-110 | On one axis, a point within a radius of at most w/2 lies in the query's cell or in the corrected neighbour. |
| SpatialHashes.SearchCellsFixedCover | web/htdocs/js/core/SpatialHash.js:77-139 | With the corrected neighbours, the cell of every point in the search square is searched. |
| SpatialHashes.SearchCellsMissEdge | web/htdocs/js/core/SpatialHash.js:106-107 | As written, a query on a centre line with radius w/2 searches only its own cell, though a point of the square lies in the next cell. |
| SpatialHashes.CollectBucket | web/htdocs/js/core/SpatialHash.js:128-136 | The inner loop of `search` collects the bucket's nodes within the square. |
| SpatialHashes.InsertNewConsistent | web/htdocs/js/core/SpatialHash.js:145-161 | Inserting a new point keeps the links, the clean buckets and both counters. |
| SpatialHashes.SpatialHash.constructor | web/htdocs/js/core/SpatialHash.js:60-75 | A new hash of the given width is empty, with both counters at 0. |
| SpatialHashes.SpatialHash.Insert | web/htdocs/js/core/SpatialHash.js:141-165 | A known point only has its count raised, and the buckets and node count stay. A new point is appended to its bucket (created if missing) and gets count 1 and its slot. `nodeCount`, and `bucketCount` for a new bucket, go up by one. |
| SpatialHashes.SpatialHash.InsertNew | web/htdocs/js/core/SpatialHash.js:145-161 | The branch of `insert` for a new point, as stated for `Insert`. |
| SpatialHashes.SpatialHash.ValidPositive | web/htdocs/js/core/SpatialHash.js:162-187 | Every counted point is stored at least once. |
| SpatialHashes.SpatialHash.StoredPointsCounted | web/htdocs/js/core/SpatialHash.js:141-219 | The buckets hold exactly the points with a positive count. |
| SpatialHashes.SpatialHash.Collect | web/htdocs/js/core/SpatialHash.js:121-138 | The collecting loop of `search` returns the near nodes of each existing cell, cell by cell. |
| SpatialHashes.SpatialHash.Search | web/htdocs/js/core/SpatialHash.js:77-139 | Fails exactly for a radius above half the bucket width. Otherwise it returns only stored points within the search square, from the cells as written. |
| SpatialHashes.SpatialHash.SearchFixed | web/htdocs/js/core/SpatialHash.js:77-139 | Fails in the same case. Otherwise it returns exactly the stored points within the search square. |
| SpatialHashes.SpatialHash.FoundStored | web/htdocs/js/core/SpatialHash.js:121-138 | Everything collected is a stored point. |
| SpatialHashes.SpatialHash.Remove | web/htdocs/js/core/SpatialHash.js:167-219 | Each listed point loses one instance. The tables stay linked, with no nulls, no empty buckets, and both counters right. |
| SpatialHashes.SpatialHash.ReleaseAll | web/htdocs/js/core/SpatialHash.js:168-187 | The first loop of `remove` releases one instance per listed point. |
| SpatialHashes.SpatialHash.Release | web/htdocs/js/core/SpatialHash.js:170-186 | One round: the point loses one instance. |
| SpatialHashes.SpatialHash.CompactAll | web/htdocs/js/core/SpatialHash.js:189-218 | The second loop of `remove` restores clean buckets and leaves the counts alone. |
| SpatialHashes.SpatialHash.CompactIfDirty | web/htdocs/js/core/SpatialHash.js:190-217 | A dirty bucket is compacted or deleted. Other buckets are untouched. |
| SpatialHashes.SpatialHash.CompactBucket | web/htdocs/js/core/SpatialHash.js:195-216 | The bucket becomes its compacted nodes, or is deleted when empty. The lookup entries are relocated, and the counts and `bucketCount` are kept right. |
| SpatialHashes.InsertNThenRemoveN | web/htdocs/js/core/SpatialHash.js:141-219 | n inserts of a point followed by a `remove` of n copies leave the counts and the stored points as they were. |
| SpatialHashes.InsertN | web/htdocs/js/core/SpatialHash.js:141-165 | n calls of `insert` add n to the point's count. |
| SpatialHashes.EdgeMissedAsWritten | web/htdocs/js/core/SpatialHash.js:102-119 | In a width-2 hash holding (1, 0), `search((0, 0), 1)` as written finds nothing. The corrected search finds (1, 0). |
| SpatialHashes.FoundNowhere | web/htdocs/js/core/SpatialHash.js:121-127 | Cells without a bucket contribute nothing. |
| SnapPointStores.LexLessTotal | web/htdocs/js/alberti/SnapPoints.js:101 | JavaScript `<` on class names is a strict total order. |
| SnapPointStores.Call | web/htdocs/js/alberti/SnapPoints.js:105-110 | A routine that does not exist yields no points. |
| SnapPointStores.DispatchSymmetric | web/htdocs/js/alberti/SnapPoints.js:101-111 | For shapes of different classes, it does not matter which is the new shape. The routine is called with the alphabetically first class first. |
| SnapPointStores.IntersectorsMembers | web/htdocs/js/alberti/SnapPoints.js:95-116 | The intersectors are exactly the non-null shapes of the list that share a point with the new shape. |
| SnapPointStores.AllPointsEmpty | web/htdocs/js/alberti/SnapPoints.js:95-140 | There are no points exactly when there are no intersectors. |
| SnapPointStores.AllPointsSound | web/htdocs/js/alberti/SnapPoints.js:95-140 | Every point is an intersection point of some non-null shape of the list. |
| SnapPointStores.AllPointsComplete | web/htdocs/js/alberti/SnapPoints.js:95-140 | Every intersection point of every non-null shape of the list is among the points. |
| SnapPointStores.AppliedAppend | web/htdocs/js/alberti/SnapPoints.js:118-136 | Applying an action shape by shape is applying it to all the points. |
| SnapPointStores.InsertThenDeleteRestores | web/htdocs/js/alberti/SnapPoints.js:118-128 | Points inserted by one call and deleted by another, in any order, leave the counts as they were. |
| SnapPointStores.BulkDeleteThenFlush | web/htdocs/js/alberti/SnapPoints.js:129-170 | A bulk delete followed by `flush` removes the same instances as a delete followed by `flush`. |
| SnapPointStores.ApplyAction | web/htdocs/js/alberti/SnapPoints.js:118-136 | The `switch` on the flag: insert inserts, delete removes, bulk delete queues, and any other flag changes nothing. |
| SnapPointStores.InsertEach | web/htdocs/js/alberti/SnapPoints.js:120-122 | Each point is inserted, in order. |
| SnapPointStores.RemoveEach | web/htdocs/js/alberti/SnapPoints.js:125-127 | Each point is removed, in order. |
| SnapPointStores.NearestIndex | web/htdocs/js/alberti/SnapPoints.js:153-162 | Returns the first candidate at the least distance, never the excluded point, or -1 when there is no candidate. |
| SnapPointStores.NearestIndexAmong | web/htdocs/js/alberti/SnapPoints.js:150-165 | The loop's index picks the first candidate of a search result at the least distance, or none when the result holds no candidate. |
| SnapPointStores.NearestOfFound | web/htdocs/js/alberti/SnapPoints.js:146-165 | The nearest candidate of a complete search result is a nearest stored point in the square. |
| SnapPointStores.BucketWidth | web/htdocs/js/alberti/SnapPoints.js:63-74 | The hash width is twice the snap radius divided by the smallest zoom factor, and is positive. |
| SnapPointStores.RadiusFits | web/htdocs/js/alberti/SnapPoints.js:146-150 | The scaled radius fits the hash exactly when the scale is at least the smallest zoom factor, 1/5. |
| SnapPointStores.SnapPoints.constructor | web/htdocs/js/alberti/SnapPoints.js:63-74 | A new store is empty, with scale 1 and a hash of that width. |
| SnapPointStores.SnapPoints.Test | web/htdocs/js/alberti/SnapPoints.js:91-141 | Returns the intersectors and all their points, and applies the action to those points. |
| SnapPointStores.SnapPoints.TestOne | web/htdocs/js/alberti/SnapPoints.js:96-136 | One round of the loop: a non-null shape's points get the action, and the shape is an intersector exactly when it has a point. |
| SnapPointStores.SnapPoints.TestIntersections | web/htdocs/js/alberti/SnapPoints.js:77-79 | `test` with the intersection routines. |
| SnapPointStores.SnapPoints.TestTangencies | web/htdocs/js/alberti/SnapPoints.js:83-85 | `test` with the tangency routines. |
| SnapPointStores.SnapPoints.GetNearestNeighbor | web/htdocs/js/alberti/SnapPoints.js:146-165 | Fails exactly when 0 ≤ scale < 1/5 (a negative scale gives a negative radius, which `search` accepts). Otherwise returns the first point at the least distance, other than the excluded one, among the points the as-written `search` returns, or none when it returns no such point. A returned point is stored and lies in the square. |
| SnapPointStores.SnapPoints.GetNearestNeighborFixed | web/htdocs/js/alberti/SnapPoints.js:146-165 | With the corrected search: fails exactly when 0 ≤ scale < 1/5, and otherwise returns a nearest stored point in the square other than the excluded one, or none when there is no such point. |
| SnapPointStores.SnapPoints.Flush | web/htdocs/js/alberti/SnapPoints.js:167-170 | The queued points leave the hash and the queue empties. |
| SnapPointStores.SnapPoints.SetSnapRadiusScale | web/htdocs/js/alberti/SnapPoints.js:173-175 | The scale is stored. |
| Intersections.Intersection.constructor | web/htdocs/js/alberti/Intersection.js:58-69 | A new store is empty, with scale 1 and a hash of width 200. |
| Intersections.Intersection.TestShape | web/htdocs/js/alberti/Intersection.js:73-121 | Returns the intersectors and applies the action to all their points. |
| Intersections.Intersection.TestOne | web/htdocs/js/alberti/Intersection.js:78-116 | One round of the loop: a non-null shape's points get the action, and the shape is an intersector exactly when it has a point. |
| Intersections.Intersection.GetNearbyIntersection | web/htdocs/js/alberti/Intersection.js:125-142 | Fails exactly when 0 ≤ scale < 1/5 (a negative scale gives a negative radius, which `search` accepts). Otherwise returns the first point at the least distance among the points the as-written `search` returns, or none when it returns none. A returned point is stored and lies in the square. |
| Intersections.Intersection.GetNearbyIntersectionFixed | web/htdocs/js/alberti/Intersection.js:125-142 | With the corrected search: fails exactly when 0 ≤ scale < 1/5, and otherwise returns a nearest stored point in the square, or none when there is no such point. |
| Intersections.Intersection.Flush | web/htdocs/js/alberti/Intersection.js:144-147 | The queued points leave the hash and the queue empties. |
| Intersections.Intersection.SetSearchRadiusScale | web/htdocs/js/alberti/Intersection.js:150-152 | The scale is stored. |
| EventHandlers.ListenerCounter.constructor | web/htdocs/js/alberti/EventHandler.js:8 | The global listener count starts at 0. |
| EventHandlers.Registered | web/htdocs/js/alberti/EventHandler.js:15-27 | A record is appended only when its triple is absent, so a duplicate-free list stays duplicate-free. |
| EventHandlers.Unregistered | web/htdocs/js/alberti/EventHandler.js:29-43 | An absent triple changes nothing. A present one loses its record, the list shrinks by one, and the other records stay. |
| EventHandlers.RegisterThenUnregister | web/htdocs/js/alberti/EventHandler.js:15-43 | Registering a fresh triple and then unregistering it restores the list. |
| EventHandlers.UnregisterThenRegister | web/htdocs/js/alberti/EventHandler.js:15-43 | Unregistering and registering again restores the same records. |
| EventHandlers.EventHandler.constructor | web/htdocs/js/alberti/EventHandler.js:10-13 | A new handler has no listeners and records the current time as its last mousemove. |
| EventHandlers.EventHandler.GetListenerIndex | web/htdocs/js/alberti/EventHandler.js:57-66 | Returns the first index of a matching record, or -1 exactly when there is none. |
| EventHandlers.EventHandler.RegisterListener | web/htdocs/js/alberti/EventHandler.js:15-27 | Adds the record when it is absent. The global count rises by exactly the number of records added. |
| EventHandlers.EventHandler.UnregisterListener | web/htdocs/js/alberti/EventHandler.js:29-43 | Removes the record when it is present. The global count falls by exactly the number of records removed. |
| EventHandlers.EventHandler.KillAllListeners | web/htdocs/js/alberti/EventHandler.js:45-54 | The list empties and the global count falls by its former length. |
| EventHandlers.EventHandler.HandleEvent | web/htdocs/js/alberti/EventHandler.js:68-100 | The handler is called except for these cases, which are dropped: mousemoves within the refresh interval; mouseovers and mouseouts whose related target is the target or inside it; keydowns with control or meta; clicks with detail 0. A handled mousemove records the time. |
| AutoScales.Keys | web/htdocs/js/alberti/AutoScale.js:83-85 | Built record by record, it holds one key per record, each at its record's position. |
| AutoScales.Registered | web/htdocs/js/alberti/AutoScale.js:81-89 | A record is appended only when its key is not registered, so the keys stay duplicate-free. |
| AutoScales.Unregistered | web/htdocs/js/alberti/AutoScale.js:91-98 | The record with the key is removed and the others keep their order. An absent key changes nothing. |
| AutoScales.RegisterThenUnregister | web/htdocs/js/alberti/AutoScale.js:81-98 | Registering a fresh key and then unregistering it restores the list. |
| AutoScales.AutoScale.constructor | web/htdocs/js/alberti/AutoScale.js:75-79 | Nothing is registered and the adjustment is 0. |
| AutoScales.AutoScale.RegisterObject | web/htdocs/js/alberti/AutoScale.js:81-89 | The shape's record is appended unless the shape is registered already. |
| AutoScales.AutoScale.UnregisterObject | web/htdocs/js/alberti/AutoScale.js:91-98 | The shape's record is removed, if present. |
| AutoScales.AutoScale.RegisterStyle | web/htdocs/js/alberti/AutoScale.js:100-108 | The style's record is appended unless the style is registered already. |
| AutoScales.AutoScale.UnregisterStyle | web/htdocs/js/alberti/AutoScale.js:110-117 | As written it compares a key that style records lack, so nothing is removed. |
| AutoScales.AutoScale.UnregisterStyleByStyle | web/htdocs/js/alberti/AutoScale.js:110-117 | Corrected: the style's record is removed, if present. |
| AutoScales.AutoScale.SetLineWidthAdjustment | web/htdocs/js/alberti/AutoScale.js:152-154 | The adjustment is stored. |
| AutoScales.StyleStaysRegistered | web/htdocs/js/alberti/AutoScale.js:100-117 | As written, a registered style is still registered after `unregisterStyle`. |
| AutoScales.StyleRemovedWhenFixed | web/htdocs/js/alberti/AutoScale.js:100-117 | Corrected: registering a fresh style and unregistering it restores the list. |
| GuiButtonFamilies.GuiButton.constructor | web/htdocs/js/alberti/gui/GuiButton.js:8-15 | A new button is off. |
| GuiButtonFamilies.GuiButton.Toggle | web/htdocs/js/alberti/gui/GuiButtonFamily.js:22-25 | The button's state is the requested one. |
| GuiButtonFamilies.GuiButtonFamily.ValidAtMostOneOn | web/htdocs/js/alberti/gui/GuiButtonFamily.js:4-6 | In a consistent family, at most one button is on. |
| GuiButtonFamilies.GuiButtonFamily.constructor | web/htdocs/js/alberti/gui/GuiButtonFamily.js:10-13 | A new family is empty, with nothing toggled (-1). |
| GuiButtonFamilies.GuiButtonFamily.ToggleButton | web/htdocs/js/alberti/gui/GuiButtonFamily.js:16-27 | Fails for a button outside the family, and when the toggled index no longer names a button; then nothing changes. Otherwise the button is on and its index is recorded, the previously toggled button is off, and the others are unchanged. In a consistent family only the first failure can happen, and consistency is kept. |
| GuiButtonFamilies.GuiButtonFamily.AddButton | web/htdocs/js/alberti/gui/GuiButtonFamily.js:29-33 | The button is appended unless present, so the list stays duplicate-free. |
| GuiButtonFamilies.GuiButtonFamily.RemoveButton | web/htdocs/js/alberti/gui/GuiButtonFamily.js:35-41 | As written: the button is removed if present, and the toggled index is left as it was. |
| GuiButtonFamilies.GuiButtonFamily.RemoveButtonTracked | web/htdocs/js/alberti/gui/GuiButtonFamily.js:35-41 | Corrected: the toggled index keeps naming the toggled button, or becomes -1 when that button is removed. |
| GuiButtonFamilies.StaleToggleAfterRemove | web/htdocs/js/alberti/gui/GuiButtonFamily.js:12-41 | As written, toggling the second of two buttons, removing the first and toggling again fails on a stale index. |
| GuiButtonFamilies.ToggleAfterTrackedRemove | web/htdocs/js/alberti/gui/GuiButtonFamily.js:12-41 | With the corrected removal, the same calls succeed. |
| GuiDropTargetFamilies.GuiDropTarget.constructor | web/htdocs/js/alberti/gui/GuiDropTarget.js:18-27 | A new target is disabled and inactive. |
| GuiDropTargetFamilies.GuiDropTarget.Enable | web/htdocs/js/alberti/gui/GuiDropTarget.js:31-34 | The target is enabled. |
| GuiDropTargetFamilies.GuiDropTarget.Disable | web/htdocs/js/alberti/gui/GuiDropTarget.js:37-40 | The target is disabled. |
| GuiDropTargetFamilies.GuiDropTarget.Activate | web/htdocs/js/alberti/gui/GuiDropTarget.js:43-50 | Only an enabled target becomes active. |
| GuiDropTargetFamilies.GuiDropTarget.Deactivate | web/htdocs/js/alberti/gui/GuiDropTarget.js:53-60 | The target is inactive. |
| GuiDropTargetFamilies.GuiDropTargetFamily.constructor | web/htdocs/js/alberti/gui/GuiDropTargetFamily.js:8-10 | A new family is empty. |
| GuiDropTargetFamilies.GuiDropTargetFamily.AddDropTarget | web/htdocs/js/alberti/gui/GuiDropTargetFamily.js:12-18 | Succeeds exactly for a target not yet in the family, and then appends it. On failure the list is unchanged, so it stays duplicate-free. |
| GuiDropTargetFamilies.GuiDropTargetFamily.RemoveDropTarget | web/htdocs/js/alberti/gui/GuiDropTargetFamily.js:20-26 | Succeeds exactly for a member, and then deletes it and keeps the others in order. On failure the list is unchanged. |
| GuiDropTargetFamilies.GuiDropTargetFamily.Activate | web/htdocs/js/alberti/gui/GuiDropTargetFamily.js:29-33 | Visits every target once, in list order. Each enabled target becomes active, a disabled one keeps its state, and no target's enabled flag changes. |
| GuiDropTargetFamilies.GuiDropTargetFamily.Deactivate | web/htdocs/js/alberti/gui/GuiDropTargetFamily.js:36-40 | Visits every target once, in list order. Each becomes inactive, and no target's enabled flag changes. |
| GuiDropTargetFamilies.AddThenRemove | web/htdocs/js/alberti/gui/GuiDropTargetFamily.js:12-26 | Adding a fresh target and removing it both succeed and restore the list. |
| ClipBoards.AcceptedCount | web/htdocs/js/alberti/ClipBoard.js:24-28 | As many clones are accepted as insertions succeeded. |
| ClipBoards.AcceptedMembers | web/htdocs/js/alberti/ClipBoard.js:24-28 | The accepted shapes are exactly the clones whose insertion succeeded. |
| ClipBoards.AcceptedAppend | web/htdocs/js/alberti/ClipBoard.js:25-27 | One more attempt adds its clone exactly when it succeeded. |
| ClipBoards.PastedStep | web/htdocs/js/alberti/ClipBoard.js:25-27 | One more round of `paste` keeps its progress predicate. |
| ClipBoards.NoneOk | web/htdocs/js/alberti/ClipBoard.js:24-28 | With no success, every attempt failed. |
| ClipBoards.AllOk | web/htdocs/js/alberti/ClipBoard.js:24-28 | As many successes as attempts means every attempt succeeded. |
| ClipBoards.PastedEnd | web/htdocs/js/alberti/ClipBoard.js:24-28 | Where `paste` ends: every attempt before the last succeeded, an early end follows a failure, and with no current layer at most one attempt was made and it failed. |
| ClipBoards.ClipBoard.constructor | web/htdocs/js/alberti/ClipBoard.js:8-10 | Nothing is stored. |
| ClipBoards.ClipBoard.Copy | web/htdocs/js/alberti/ClipBoard.js:13-21 | An empty array leaves the store as it was. Otherwise the store becomes new, distinct clones of the given shapes, in the same order. |
| ClipBoards.ClipBoard.Paste | web/htdocs/js/alberti/ClipBoard.js:24-28 | One clone per stored shape, in order, goes through `insertShape` into the current layer, and the store does not change. A failed insertion throws and ends `paste`, so every attempt before the last succeeded and fewer attempts than stored shapes means the last failed. The layer gains exactly the accepted clones, in order, and the shape count rises by their number. With no current layer, the first insertion fails and nothing more is tried. |
| ClipBoards.ClipBoard.PasteAll | web/htdocs/js/alberti/ClipBoard.js:25-27 | The loop stops at the first failure, and the count of attempts is the count of successes plus one for a failure. |
| ClipBoards.ClipBoard.PasteOne | web/htdocs/js/alberti/ClipBoard.js:26 | A new clone is inserted, and the current layer gains it exactly when the insertion succeeds. |
| ClipBoards.ClipBoard.PasteStep | web/htdocs/js/alberti/ClipBoard.js:25-27 | One round of the loop keeps the progress predicate. |
| ClipBoards.ClipBoard.Clear | web/htdocs/js/alberti/ClipBoard.js:31-33 | Nothing is stored. |
| Zaps.MinZoomLevelIsIndex | web/htdocs/js/alberti/Zap.js:16-19 | The minimum level, 2, is the position of 1/5 among the zoom factors. |
| Zaps.MaxZoomLevelIsIndex | web/htdocs/js/alberti/Zap.js:16-19 | The maximum level, 10, is the position of 4. |
| Zaps.DefaultZoomLevelIsIndex | web/htdocs/js/alberti/Zap.js:16-19 | The default level, 4, is the position of 1/2, between the two bounds. |
| Zaps.WheelRefresh | web/htdocs/js/alberti/Zap.js:26-27 | The refresh interval is 1000 ms divided by the maximum number of wheel events per second, rounded to the nearest integer as `Math.round` does. For 30 events a second that is 33, which is also the quotient rounded down. |
| Zaps.Zap.constructor | web/htdocs/js/alberti/Zap.js:29-59 | Starts at the default level, with panning off and no wheel event yet. |
| Zaps.Zap.HandleWheel | web/htdocs/js/alberti/Zap.js:64-122 | The new level is the current one moved by the direction and clamped to [min, max]. A zoom starts exactly when the level changes. A step of one moves at most one level. |
| Zaps.Zap.MouseWheel | web/htdocs/js/alberti/Zap.js:136-144 | Handled exactly when the refresh interval has passed since the last handled event, which then records the time. The delta is clamped to one level. An unhandled event changes nothing. |
| Zaps.Zap.DomMouseScroll | web/htdocs/js/alberti/Zap.js:146-153 | Handled exactly when `evt.VERTICAL_AXIS` is truthy. That is the event interface's constant, which always is truthy, so horizontal scrolls zoom too. The clamped detail is negated, so at most one level is moved. |
| Zaps.Zap.EnablePanning | web/htdocs/js/alberti/Zap.js:159-165 | Panning is on, whatever its prior state. |
| Zaps.Zap.DisablePanning | web/htdocs/js/alberti/Zap.js:169-175 | Panning is off, whatever its prior state. |
| ToolArcs.NextDirection | web/htdocs/js/alberti/ToolArc.js:39-47 | The direction stays 1 or -1. It flips exactly when the delta angle jumps by more than the threshold in the direction already being swept. |
| ToolArcs.ToolArc.constructor | web/htdocs/js/alberti/ToolArc.js:28-32 | Clockwise (1), with a last delta angle of 0. |
| ToolArcs.ToolArc.GetClockDirection | web/htdocs/js/alberti/ToolArc.js:39-52 | The direction is updated with threshold `halfPi`. The new delta angle is recorded, and the direction is returned. |
| ToolArcs.FlipTwiceRestores | web/htdocs/js/alberti/ToolArc.js:39-47 | Two jumps, each in the direction being swept, flip the direction there and back. |
| ToolArcs.SmallMoveKeepsDirection | web/htdocs/js/alberti/ToolArc.js:39-47 | Movements within the threshold never change the direction. |
| ToolCircleArcs.JsRemTwo | web/htdocs/js/alberti/ToolCircleArc.js:57 | JavaScript's `% 2`: the remainder is -1, 0 or 1, takes the sign of the dividend and differs from it by an even number. |
| ToolCircleArcs.ToolCircleArc.constructor | web/htdocs/js/alberti/ToolCircleArc.js:9-16 | Clockwise, with delta angle 0 and radius 0. |
| ToolCircleArcs.ToolCircleArc.UpdateClockDirection | web/htdocs/js/alberti/ToolCircleArc.js:153-164 | The direction is updated with a threshold of 180 degrees rather than `halfPi`. The new delta angle is recorded and the radius kept. |
| ToolCircleArcs.ToolCircleArc.ExecuteStep | web/htdocs/js/alberti/ToolCircleArc.js:19-94 | Step 1 records a positive radius and advances, or falls back otherwise. Even steps from 2 start a new arc: clockwise, delta angle 0. Odd steps from 3 finish the arc unless its delta angle is 0. A negative even step gives a phase of -0, which matches case 0 and also starts a new arc. Step 0 and negative odd steps leave the direction state alone. |
| ToolCircleArcs.StepOnePhase | web/htdocs/js/alberti/ToolCircleArc.js:57 | For step 1 the phase `(1 - 2) % 2` is -1 in JavaScript, where Dafny's Euclidean `%` gives 1. |

## Left out

- SVG and DOM side effects are not modelled: attaching and detaching nodes, `set` of attributes, selection visuals, the layer panel, cursors and tooltips.
- Floating-point geometry is a parameter (`GeometryTable`): the `lineline`, `earcline`, `carcline`, `carccarc`, `linerect` and `carcrect` routines of `Intersection.js`, and `Intersect.js` and `Tangency.js`.
- `Util.roundToDecimal`, `floorToDecimal`, `angleIsBetweenAngles`, `radToDeg`, `degToRad` and `equals` are floating-point helpers. `Between` takes the rounding as a parameter, and the lookup key of `SpatialHash` (`getLookupIndex`) is the integer point itself.
- `Util.parseValue` is a regular-expression parser, left out.
- `Util.extend`, `firstNonTextChild`, `nextNonTextSibling`, `assert` and `Function.prototype.bindTo` are plumbing. The failures of `assert` are `Err` results.
- `AutoScale.update` (lines 119-150) computes floating-point attribute values for each zoom level and sets SVG attributes, and is not modelled.
- The timers and animations of `Zap.handleWheel` (the zoom animation, tooltip and pan arithmetic) are left out. Only the level selection is modelled.
- The calls `LayerManager` makes into `UndoManager` and `Intersection` (pushing undo actions, `testShape` on insertion and deletion, `flush`) are not modelled. Both components are modelled on their own.
- `LayerManager.switchToLayerAbove`/`Below` (lines 160-169), `getLayerObject`/`getLayerIndex` (lines 263-271), `deleteSelectedShapes` (lines 328-351), `getShapesInRect` (lines 356-369) and `pickShapes` (lines 375-384) are not modelled. They combine modelled operations with undo recording, bounding boxes and floating-point rectangle tests.
- `ToolCircleArc.mouseMoveDuringStep` and the drawing steps of `executeStep` draw SVG shapes and depend on a `Tool` base class that is not part of this model. Only the state of `executeStep` is modelled.
- `GuiButtonFamilies.GuiButton.Toggle`: GuiButton.js has no `toggle` method, only the `mouseup` toggle. The model assumes `toggle(on)` sets the state to `on`, as `toggleButton` relies on.
- `Shapes.Shape.Clone`: models `clone` as `Circle.js` writes it (a new shape of the same class). The per-class geometry copied by each shape class, and the `getSid`/`setSid` accessors, are not part of this model. An sid is a string field, and "no sid" is the empty string.
- `LayerManagers.LayerManager.GetVisibleShapes`: does not state the order of the result, which follows the insertion order of the keys of a JavaScript object.
- `ClipBoards.ClipBoard.Paste`: does not state that the returned clones are new objects. `PasteOne` states it for each round.
- `ClipBoards.ClipBoard.Paste`: the exception `insertShape` throws is modelled as an `Err` result that ends the loop; it is not propagated to the caller as an exception.
- `Undo.UndoManager.Push`: an action's redo and undo are opaque tokens returned by `undo`/`redo`, not calls on an object. Cascading undo (the extra `push` argument) does not change the manager's state and is not modelled.
- `EventHandlers.EventHandler.HandleEvent`: states whether the handler is dispatched, not what the handler does, and `stopPropagation`/`preventDefault` are not modelled.
- `SpatialHashes.SpatialHash.Search`: the search region is the axis-aligned square the source tests, not a disk. The points are integer pairs, so three-decimal rounding is not modelled.

## Findings

| source | as written | input that shows it | evidently intended | confidence | as-written member | corrected member |
|---|---|---|---|---|---|---|
| web/htdocs/js/alberti/LayerManager.js:86-131 | `deleteCurrentLayer` switches to the layer below and then runs `splice(this.currentLayer, 1)` with the NEW current index, so above the bottom layer it removes the layer below the target | three visible layers [L0, L1, L2] with L1 current: the call removes L0, and the emptied L1 stays, now current | remove the target layer, as the comment at 86-89 and the undo action at 126-129 (which re-inserts the target at its old index) say, leaving the layer below current | high; not executed | LayerManagers.LayerManager.DeleteCurrentLayer, LayerManagers.LayerManager.SwitchAndSplice | LayerManagers.LayerManager.DeleteCurrentLayerFixed, LayerManagers.LayerManager.SwitchAndSpliceFixed |
| web/htdocs/js/alberti/AutoScale.js:110-117 | `unregisterStyle` compares `styles[i]["shape"]` with the style, but style records hold the style under `"style"`, so nothing is ever removed | register a style, then `unregisterStyle` of it: the style is still registered | remove the record whose `"style"` is the given style | high; not executed | AutoScales.AutoScale.UnregisterStyle, AutoScales.StyleStaysRegistered | AutoScales.AutoScale.UnregisterStyleByStyle, AutoScales.StyleRemovedWhenFixed |
| web/htdocs/js/alberti/gui/GuiButtonFamily.js:35-41 | `removeButton` splices the button out but leaves `currentToggled` unchanged | buttons [b0, b1], `toggleButton(b1)`, `removeButton(b0)`, `toggleButton(b1)`: the index 1 is past the end and the second toggle throws | shift `currentToggled` down when an earlier button is removed, and reset it to -1 when the toggled button is removed | high; not executed | GuiButtonFamilies.GuiButtonFamily.RemoveButton, GuiButtonFamilies.StaleToggleAfterRemove | GuiButtonFamilies.GuiButtonFamily.RemoveButtonTracked, GuiButtonFamilies.ToggleAfterTrackedRemove |
| web/htdocs/js/core/SpatialHash.js:102-119 | the neighbour cell is chosen by `sign` of the offset from the cell centre; a query on the centre line gets sign 0 and adds its own cell again | hash of width 2 holding (1, 0), `search((0, 0), 1)`: (1, 0) is within the square but lies in the cell centred on (2, 0), which is never searched | a query on the centre line looks into the cell on the side the bucket rounding favours | medium; not executed | SpatialHashes.SearchCells, SpatialHashes.SpatialHash.Search, SpatialHashes.SearchCellsMissEdge, SpatialHashes.EdgeMissedAsWritten, SnapPointStores.SnapPoints.GetNearestNeighbor, Intersections.Intersection.GetNearbyIntersection | SpatialHashes.SearchCellsFixed, SpatialHashes.SpatialHash.SearchFixed, SpatialHashes.SearchCellsFixedCover, SnapPointStores.SnapPoints.GetNearestNeighborFixed, Intersections.Intersection.GetNearbyIntersectionFixed |
