# spending-explorer-3d: the drill-down bookkeeping, in Dafny

spending-explorer-3d shows federal spending as a field of 3D boxes. The
spending API's results at one level (agencies, then federal accounts, program
activities, object classes, recipients, awards) are laid out as a treemap.
Each treemap rectangle becomes a box whose volume is the rectangle's area.
The root level's boxes are arranged in two row-sets, one in front of the
viewer and one behind. Gazing at a box for long enough throws it up. When
that animation completes, the next level is fetched with the box's filters
extended by its id, and the box is replaced by its children, which drop onto
the spot where it stood. At the last level (awards) the box is only put back
down. Every frame, the meshes of all boxes that have a physics body follow
that body.

This project models the part of `js/app.js` that keeps this state, plus the
box record of `js/box-model.js`:

- the registry of cells by mesh name (`cellTracker`);
- the physics bodies by mesh name (`physicalItems`);
- the selected cell (`activeCell`);
- the frame clock (`lastUpdate`);
- the module-level cell counter.

The model covers how boxes are generated, named, registered, placed,
selected, replaced and synchronised, and the decisions behind them: the
next level, the request filters, and the parser the response goes to.
It also covers the root-level row layout and the word wrap of the heads-up
display (HUD) text.

Modules:

- `Types`: records, rectangles, dimensions, positions, and a no-repeats predicate.
- `Box`: the `BoxModel` class (`js/box-model.js`).
- `CellNames`: mesh names `type-id-serial`, with the serial readable back from a name.
- `Geometry`: the dimension arithmetic of `_generateCell`.
- `Results`: the value part of `_parseData`: the first fifty results, the treemap leaves reversed, the visible ones kept.
- `RootLayout`: the placement rule of `_parseRoot`, both as the source runs it and as an independent per-row-set reference.
- `Levels`: `dataLevels`, `_diveDeeper`, the request body and the routing in `_loadData`.
- `Frame`: the time step of `_updatePhysics`.
- `Hud`: the word wrap of `_updateHUD`.
- `App`: the class `Visualization` with its state and one method per handler or continuation. The invariant `Valid()` says:
  - every body belongs to a registered cell, which is what `_updatePhysics` relies on when it looks each body's cell up;
  - every cell is registered under its own mesh name, with a serial the counter has already handed out;
  - the active cell, if any, is registered and consumed.

Library functions are parameters of the model:

- `Math.pow` for the cube root and the square root;
- the d3 treemap;
- the canvas's `measureText`;
- the physics world's body positions.

Each tween completion and each fetch continuation is a method that runs to
completion.

## Model

| member | source | states |
|---|---|---|
| App.CellCounter.constructor | js/app.js:1 | the counter starts at 1 |
| App.CellCounter.Next | js/app.js:2-5 | `cellCounter` increments the count and returns the new value, larger than every earlier one |
| App.NewNames | js/app.js:225 | one mesh name per generated cell, in order |
| App.RootBodies | js/app.js:364-374 | each root body has its box's size, sits at the box's place in `RootPositions`, and is static |
| App.DepthBodies | js/app.js:400-406 | each child body has the child's size, is dropped from y = 30 above the parent's x and z, and is movable |
| App.NewNamesAreFresh | js/app.js:1-5 | names handed out from serial `first` on carry serials `first`, `first + 1`, … and so are new to any registry whose serials are all below `first` |
| App.NewNamesDistinct | js/app.js:225 | the names given out in one parse are pairwise distinct |
| App.RegisteringNewNamesExtends | js/app.js:300 | registering one parse's boxes keeps every earlier entry and maps each new name to its own box |
| App.RegisteredExtends | js/app.js:300 | storing distinct new names one after the other gives exactly the old keys plus the names, old values kept, each name holding its value |
| App.ExtendsSnoc | js/app.js:300 | storing one more fresh name keeps that relation |
| App.RegisteredKeys | js/app.js:300 | the keys after storing are the old keys plus the names stored |
| App.DepthKeys | js/app.js:389-411 | after the parent leaves both maps, every remaining body still belongs to a registered cell |
| App.NewBoxesDistinct | js/app.js:222-225 | the boxes of one parse are distinct objects, because their names are |
| App.Visualization.constructor | js/app.js:498-499 | `start` begins with no cells, no bodies, no active cell and no previous frame, and the invariant holds |
| App.Visualization.GenerateCell | js/app.js:196-228 | a rectangle of zero area gives `null` and spends no counter value. Otherwise the result is a fresh, unconsumed box with the rectangle's box dimensions (width ≥ depth) and record, named `type-id-n` with the next counter value `n` |
| App.Visualization.ParseData | js/app.js:229-305 | the boxes are exactly those of `ParsedCells`, in order, numbered with the next counter values. Each is registered under its name with the given filters, every earlier registration is kept, and the invariant holds |
| App.Visualization.RegisterLeaves | js/app.js:267-304 | the `reduce` builds one box per visible leaf in order and registers each as it is built |
| App.Visualization.RegisterLeaf | js/app.js:267-304 | one step of the `reduce` adds leaf `i`'s box, if it has one, and keeps the earlier boxes |
| App.Visualization.AppendLeaf | js/app.js:268-303 | the `reduce` callback appends the leaf's box, name and cell exactly when the leaf is visible |
| App.Visualization.AddCell | js/app.js:268-301 | a visible leaf's box is built with the filters and stored under a name not registered before. An invisible leaf changes nothing |
| App.Visualization.ParseRoot | js/app.js:306-377 | `_parseRoot` registers the root boxes with no filters and puts box `i` at `RootPositions(...)[i]`. Each box gets a static body of its size there, and no earlier cell or body is lost |
| App.Visualization.SettleRoots | js/app.js:309-377 | the freshly registered root boxes are placed and given their bodies |
| App.Visualization.SettleDistinct | js/app.js:315-377 | distinct registered boxes are placed and given their bodies, and the invariant is kept |
| App.Visualization.PlaceRoots | js/app.js:315-377 | the `forEach` over both row-sets puts every box where `RootPositions` says and records its static body under its name |
| App.Visualization.PlaceRoot | js/app.js:315-376 | one iteration places box `i` and leaves the earlier boxes where they were |
| App.Visualization.SetRoot | js/app.js:364-376 | box `i` goes to its walk position, and its body is recorded under its name |
| App.Visualization.ParseDepth | js/app.js:379-413 | `_parseDepth` treemaps the children over the parent's width × height × depth, registers them with the filters and puts all of them at the parent's position. It gives them movable bodies at y = 30, removes the parent's registration and body, and clears the active cell. With no active cell, nothing changes |
| App.Visualization.SettleDepth | js/app.js:386-412 | the parent's body is removed, the children are dropped at its position with movable bodies, and the parent is unregistered and deactivated |
| App.Visualization.RemoveBody | js/app.js:389-392 | the parent's body, if any, is gone, and nothing else changes |
| App.Visualization.Retire | js/app.js:411-412 | the parent leaves the registry, no cell is active, and the invariant holds again |
| App.Visualization.DropChildren | js/app.js:395-409 | every child is at the parent's position and has a movable body of its size under its name |
| App.Visualization.DropChild | js/app.js:395-408 | one more child joins the earlier ones |
| App.Visualization.SetChild | js/app.js:396-407 | the child is at the spot, and its movable body is dropped from y = 30 above it |
| App.Visualization.GazeLong | js/app.js:288-294 | a consumed cell ignores the long gaze, and any other registered cell becomes the active, consumed cell. The cell keeps its size, name, record and filters |
| App.Visualization.SelectCell | js/app.js:414-418 | the cell is marked consumed and becomes the active cell. Its size, name, record, filters and position are unchanged |
| App.Visualization.SelectComplete | js/app.js:426-430 | when the throw completes, the cell rests at y = 30, and the next step is `_diveDeeper` on the record and filters it held before. Nothing else about the cell changes |
| App.Visualization.RestoreComplete | js/app.js:432-445 | when the restore completes, the cell rests on the floor at half its height, is unconsumed, and no cell is active. Its size, name, record and filters are unchanged |
| App.Visualization.LoadComplete | js/app.js:481-488 | an agency response is parsed as the root and keeps every cell and body. Any other level replaces the active cell and leaves none active |
| App.Visualization.UpdatePhysics | js/app.js:520-538 | the step is the time since the previous frame (0 with none), and the clock is set to this frame. Every cell with a body moves to its body's position, and nothing else changes |
| App.Visualization.SyncBodies | js/app.js:533-538 | every cell with a body is moved to its body's position, and the other cells stay put |
| App.Visualization.MoveCell | js/app.js:534-536 | only the cell's position changes |
| Box.BoxModel.constructor | js/app.js:222 | a blank box is unconsumed, unnamed and at the origin |
| Box.BoxModel.Start | js/box-model.js:2-16 | `start` stores x, y, z as width, height, depth, clears `consumed` and builds a new unnamed mesh at the origin. The `data` argument is not stored |
| CellNames.NatToString | js/app.js:225 | a counter value renders as a non-empty run of decimal digits |
| CellNames.DigitsRoundTrip | js/app.js:225 | reading back the digits gives the counter value |
| CellNames.SerialAfterDash | js/app.js:225 | a name ending in `-` and digits has the serial those digits denote |
| CellNames.SerialOfMeshName | js/app.js:225 | the serial of `type-id-n` is `n`, whatever `type` and `id` contain |
| CellNames.MeshNamesDiffer | js/app.js:225 | cells built with different counter values never share a name |
| Frame.FrameStep | js/app.js:521-528 | no step without a previous frame, otherwise the time elapsed since it |
| Frame.StepsTelescope | js/app.js:520-530 | over any run of set timestamps, the steps add up to the time from the previous frame to the last one |
| Frame.UnsetTimestampRestarts | js/app.js:522-524 | a falsy timestamp leaves the clock unset, so the next frame again takes no step |
| Geometry.AreaNonNegative | js/app.js:197-201 | the rectangle's area is never negative, and it is zero exactly when the rectangle is flat |
| Geometry.CellDimensions | js/app.js:196-221 | `null` exactly for a flat rectangle. Otherwise the box has width ≥ depth > 0 and height equal to the cube root of the area, and its volume equals the area |
| Geometry.BoxShape | js/app.js:206-220 | the box keeps the given volume, takes its cube root as height and puts the larger base length in width |
| Results.Truncate | js/app.js:230-234 | the first 50 results, in their order, or all of them when there are fewer |
| Results.ReverseAt | js/app.js:267 | `reverse` puts element `k` at the mirrored index |
| Results.ReverseAppend | js/app.js:267 | reversing a concatenation reverses and swaps the parts |
| Results.VisibleCellsVisible | js/app.js:267-273 | every kept cell is a leaf of positive area and carries the dimensions `_generateCell` gives it |
| Results.VisibleCellsAppend | js/app.js:267-273 | the walk treats each leaf on its own, so it splits over concatenation |
| Results.VisibleCellsStep | js/app.js:269-273 | one more leaf adds its box exactly when it is visible |
| Results.VisibleCellsKeeps | js/app.js:269-273 | every visible leaf is kept, right after the visible leaves before it |
| Results.VisibleCellsReverse | js/app.js:267 | walking the reversed leaves keeps the visible ones in reverse order |
| Results.ParsedCellsOrder | js/app.js:229-267 | no results give no boxes. Otherwise the boxes are the visible treemap leaves of the first fifty results, in reverse treemap order |
| RootLayout.PlaceBox | js/app.js:316-358 | the `forEach` body on one row-set agrees with the reference step `Place`: first row, new row behind a full one, or append in place |
| RootLayout.PlaceAll | js/app.js:315-358 | a row-set receiving boxes gives one slot per box and has rows once it has a box |
| RootLayout.Evens | js/app.js:318-319 | the front row-set holds the boxes at even indices |
| RootLayout.Odds | js/app.js:318-319 | the back row-set holds the boxes at odd indices |
| RootLayout.RootPositions | js/app.js:315-364 | one position per root box |
| RootLayout.PlaceAllPrefix | js/app.js:315-358 | earlier boxes keep their slots when more boxes arrive |
| RootLayout.PlaceAllSnoc | js/app.js:315-358 | a box arriving last adds its own slot and changes no other |
| RootLayout.FrontStep | js/app.js:318-362 | an even box enters the front row-set with z negated, and the back row-set is unchanged |
| RootLayout.BackStep | js/app.js:318-362 | an odd box enters the back row-set, and the front row-set is unchanged |
| RootLayout.WalkBuildsRowSets | js/app.js:315-362 | the interleaved walk builds each row-set as placing that row-set's boxes on their own would |
| RootLayout.WalkPlacesRoots | js/app.js:315-364 | the walk puts every box where `RootPositions` says |
| RootLayout.PlaceRootBox | js/app.js:315-364 | one iteration of the walk advances the right row-set and yields the walk position |
| RootLayout.SlotStep | js/app.js:315-358 | box `i` of the walk is box `i / 2` of its row-set, and gets that row-set's slot |
| RootLayout.PartPrefixes | js/app.js:318-319 | the row-set's boxes before box `i` are those of the walk's first `i` |
| RootLayout.PartStep | js/app.js:315-358 | placing box `k` on the rows of the boxes before it gives box `k`'s slot |
| RootLayout.FirstBoxes | js/app.js:322-331 | box 0 sits at x = -10, z = -5, and box 1 at x = -10, z = 5, both resting on the floor |
| RootLayout.FirstSlot | js/app.js:322-331 | the first box of a row-set starts the first row |
| RootLayout.PlaceAllInvariant | js/app.js:322-358 | rows start at z ≥ 5, and the last row covers the last box's extent and depth |
| RootLayout.SlotsInBounds | js/app.js:322-358 | every slot lies within -10 ≤ x ≤ 10 and at z ≥ 5 |
| RootLayout.ConsecutiveSlots | js/app.js:333-358 | while the running x is at most 10, the next box goes further right on the same row. Past 10, it opens a row at x = -10 whose z is the last row's z plus its `maxDepth` plus 5, so it lies behind the previous box by at least that box's depth plus 5 |
| RootLayout.NextSlot | js/app.js:333-358 | the same, for a box appended to a row-set, including the exact z of a new row |
| RootLayout.RootSides | js/app.js:315-364 | front boxes have z ≤ -5, back boxes z ≥ 5, every box has x within ±10, and every box rests on the floor |
| RootLayout.WidthFourWrapsAfterThree | js/app.js:313-358 | width-4 boxes share the first row at x = -10, -6 and 3, and the fourth opens a second row |
| Levels.IndexOf | js/app.js:451 | `indexOf` gives the first index holding the value, or -1 exactly when it is absent |
| Levels.LevelsDistinct | js/app.js:16-23 | no level name occurs twice |
| Levels.IndexOfLevel | js/app.js:451 | each level's index is its position in `dataLevels` |
| Levels.DiveRestoresOnlyAtLastLevel | js/app.js:447-456 | a cell is restored instead of drilled exactly when its record is an award |
| Levels.DiveToNextLevel | js/app.js:458-464 | any other level fetches the next level, never the root. Its filters add `{type: id}` and keep every other entry |
| Levels.DiveFromUnknownLevel | js/app.js:451-462 | a record of unknown type gets index -1 and so fetches the agency level |
| Levels.DiveExample | js/app.js:447-465 | a program activity under an agency fetches object classes with both filters |
| Levels.RequestBody | js/app.js:473-478 | the request asks for the level, with the filters plus an `fy` entry that overrides any earlier one |
| Levels.RouteFor | js/app.js:482-488 | the agency level is parsed as the root, and every other level as a depth |
| Levels.DiveRoutesToDepth | js/app.js:458-488 | every fetch a drill issues from a known level is parsed as a depth |
| Hud.WrapLines | js/app.js:153-166 | the fold gives at least one line and at most one more line than there are words |
| Hud.WrapGroups | js/app.js:153-166 | the reference fold, which records the words of each line, has the same bounds |
| Hud.LinesSpellGroups | js/app.js:153-166 | line `k` is the words of group `k`, each followed by a space |
| Hud.AddWordSpells | js/app.js:155-164 | one step of the fold takes the same decision on lines and on groups |
| Hud.WrapKeepsText | js/app.js:153-166 | the lines run together give back every word, in order, each followed by a space |
| Hud.AddWordKeepsText | js/app.js:155-164 | one step of the fold appends the word and a space to the text |
| Hud.WrapGroupsInvariant | js/app.js:153-166 | the groups hold the words in order, every break is justified, and every appended line fits |
| Hud.PushKeepsInvariant | js/app.js:158-160 | opening a line for a word that does not fit keeps the invariant |
| Hud.AppendKeepsInvariant | js/app.js:161-164 | appending a word that fits keeps the invariant |
| Hud.AppendKeepsWords | js/app.js:161-164 | appending keeps the words in order |
| Hud.AppendKeepsFirst | js/app.js:161-164 | appending keeps the first word of line 0 within the width |
| Hud.AppendKeepsBreaks | js/app.js:161-164 | appending keeps every break justified |
| Hud.AppendKeepsFit | js/app.js:161-164 | appending keeps every appended line within the width |
| Hud.BreaksOnlyWhenNeeded | js/app.js:155-160 | a new line is opened only when its first word, added to the line before, would measure wider than the canvas |
| Hud.LinesFit | js/app.js:157-164 | every line that took a word by appending it fits the canvas width |
| Hud.GroupsHoldWords | js/app.js:153-166 | no word is split, dropped or reordered |
| Hud.FirstLineEmpty | js/app.js:154-166 | line 0 stays empty exactly when the first word alone is too wide |
| Types.Abs | js/app.js:197-198 | `Math.abs` is non-negative and equals its argument or its negation |
| Types.Max | js/app.js:219 | `Math.max` is at least both arguments and equals one of them |
| Types.Min | js/app.js:220 | `Math.min` is at most both arguments and equals one of them |

## Left out

- Rendering: the three.js scene, camera, renderer, VR effect and manager, fog, lights, the grid floor, meshes' geometry and material, and `_resize`. These are display only. A mesh is reduced to its name and position.
- The physics world itself: the floor body, `world.step`, body rotations and quaternions. The world's body positions are the parameter `bodyPosition`, and a body is recorded as the size, position and `move` flag it was created with.
- Reticulum: the hit registration, the gaze-over and gaze-out handlers, and `Reticulum.remove`. Only the `onGazeLong` decision is modelled (`GazeLong`).
- `_showHUD`, the money formatting, and the drawing of the HUD lines. The word wrap is modelled from the list of words. The split of the text at spaces and `measureText` are inputs.
- Colours: `colorBases`, the tinycolor lightening and darkening, and the d3 colour scale. They change no state the model tracks.
- The d3 hierarchy, its sum and sort, and the squarified treemap. These are the parameter `treemap`, which maps records and a side length to the leaves. `Math.pow` for cube and square roots is the parameter `m`. The only property assumed of it is that positive arguments have positive roots.
- `fetch`, JSON decoding, `currentFY()` and the `catch` that logs errors. The response's results and the fiscal year are inputs, and `RequestBody` models the request's body.
- The tweens' intermediate frames. Only their completions are modelled (`SelectComplete`, `RestoreComplete`).
- The scheduling of animation frames, tweens and fetches. Each callback runs to completion as one method call, and their interleaving is left to the caller.
- `start`'s wiring of the resize listener, its first `update()` call and its first `_loadData('agency')`. The constructor gives the state right after `cellTracker = {}` and `activeCell = null`.
- NoSleep and the touch handler.
- App.Visualization.ParseDepth: the case the source leaves to a `TypeError` is modelled as "nothing changes". That case is no active cell, which makes `this.cellTracker[null]` undefined.
- App.Visualization.SelectCell, App.Visualization.SelectComplete and App.Visualization.RestoreComplete: an id that is not registered makes the source throw. The model makes no change, and `SelectComplete` returns `None`. For `SelectCell` and `RestoreComplete`, the throw comes before any write. For `SelectComplete`, the tween's completion first sets the y of the mesh it captured, and only then does `_diveDeeper` throw. A cell leaves the registry only in `_parseDepth`, which first removes its mesh from the scene. So that write reaches only a detached mesh, which nothing the model tracks can reach.
- App.Visualization.SelectComplete: the model returns `_diveDeeper`'s decision instead of acting on it. The caller then runs `RestoreComplete` or `LoadComplete`, since in the source both happen only after a later tween or fetch.
- App.Visualization.LoadComplete: its contract states only what the routing guarantees. The full effect of each branch is the contract of `ParseRoot` or `ParseDepth`.
- Geometry.CellDimensions: the arithmetic is on exact reals, not on IEEE doubles. Its volume equation holds up to rounding in the source, and `Math.pow` is uninterpreted.
- App.CellCounter.Next: the counter is an unbounded natural. The source's counter is a JavaScript number, exact up to 2^53.
- Frame.FrameStep: every falsy `lastUpdate` (undefined, 0, NaN) is written as 0.0. The model has no NaN.
- App.Visualization.SyncBodies: the source walks the keys of `physicalItems` in insertion order. The model takes them in any order, since each step touches one cell only.
