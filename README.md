# Drag-paint garden: a Dafny model

This project models the interaction core of `src/main.js`, a browser toy in which a
10 × 8 grid of tiles, each showing a tilde `~`, is painted with gardening emoji by
pressing and dragging the mouse (or a finger). What is modelled:

- the presence map `gridData`, keyed by `getGridKey(col, row)`; the model keys it by a
  `Cell(col, row)` pair, and `Keys.GridKeyInjective` shows that the string key the
  program builds (`"col,row"`) is just as unique;
- what each tile shows: the tilde, or one entry of `gardeningEmojis`;
- the gesture flags `isDragging` and `dragAction` (`null`, `'place'` or `'remove'`);
- whether the easter-egg button (`noteButton`) is visible;
- `handleTileInteraction`, `checkEasterEgg`, the three mouse handlers, the three touch
  handlers, and the all-tilde grid that `initCanvas` builds.

Layout:

- `wrappers.dfy` — `Option`, for "no tile under the pointer" and a null `dragAction`.
- `keys.dfy` — module `Keys`: `getGridKey` as the string the program builds, and its
  injectivity.
- `drag_paint.dfy` — module `DragPaint`: the state as a value (`Garden`) and every
  handler as a function from the state before to the state after, with the invariant
  every reachable state keeps (`Consistent`).
- `gestures.dfy` — module `Gestures`: sequences of events, and what a whole gesture
  does (the action chosen by the first tile, one direction per gesture, release).
- `canvas.dfy` — module `Canvas`: class `GardenCanvas`, whose fields are the program's
  module-level variables and whose methods are its handlers, updating those fields in
  place; each method is proved to produce exactly the state the matching `DragPaint`
  function gives, so the lemmas of `DragPaint` and `Gestures` hold of the methods.

Hit-testing (`e.target.closest('.tile')` for the mouse, `document.elementFromPoint`
for touch) is abstracted into an input: the tile under the pointer, or `None`. The
random emoji draw `Math.floor(Math.random() * gardeningEmojis.length)` is an input
too: an index `pick` in `[0, |gardeningEmojis|)`.

Two behaviours of the code worth knowing:

- A press that lands beside the tiles starts a gesture whose action stays null; the
  first tile the drag then reaches decides the action (`Gestures.ActionChosenByFirstTile`).
- Removing writes `false` under the key rather than deleting it; a missing key and a
  `false` one both read as unoccupied (`DragPaint.Occupied`).

## Model

| member | source | states |
|---|---|---|
| Keys.GridKey | src/main.js:34-36 | the key always holds the comma that separates the column's text from the row's; that the key is unique per position is stated by `Keys.GridKeyInjective` |
| Keys.GridKeyInjective | src/main.js:34-36 | two grid positions get the same `"col,row"` key exactly when they are the same position, so a map keyed by the position pair is a faithful stand-in |
| DragPaint.Text | src/main.js:138-149 | a tile's text is `~` exactly when it shows the tilde; otherwise it is an element of `gardeningEmojis` |
| DragPaint.FirstAction | src/main.js:132 | the action a gesture settles on is `remove` exactly when the first tile's key is occupied, and `place` exactly when it is not |
| DragPaint.Initial | src/main.js:66-80 | the state `initCanvas` leaves: an empty presence map, only in-bounds tiles, each showing the tilde, no gesture, no action, and the button hidden (created with the `hidden` class); that every tile exists is `DragPaint.InitialIsConsistent` |
| DragPaint.CheckEasterEgg | src/main.js:157-170 | the button's visibility is set outright to "all four corners occupied", whatever it was before; nothing else changes |
| DragPaint.Interact | src/main.js:123-154 | no tile: nothing changes; otherwise a null action is resolved from this tile (`remove` if occupied, `place` if not) and a set one is kept, the tile ends in the action's target state, a tile already in that state keeps its occupancy and display, a tile that changes is redrawn to match, no other key or tile changes, `isDragging` is untouched, and the button then shows the corner predicate |
| DragPaint.PointerDown | src/main.js:173-178 | a press starts a gesture; off the tiles the action stays null and nothing else changes; on a tile the action is chosen from that tile and the tile flips |
| DragPaint.PointerMove | src/main.js:180-184 | a move outside a gesture changes nothing; during a gesture it keeps a set action and the dragging flag |
| DragPaint.PointerUp | src/main.js:186-189 | release ends the gesture and clears the action, leaving grid, tiles and button as they were |
| DragPaint.InitialIsConsistent | src/main.js:66-80 | the page starts with an empty presence map, every tile showing `~`, the button hidden, no gesture, and in a consistent state |
| DragPaint.InteractPreservesConsistent | src/main.js:123-154 | an interaction keeps tiles and map keys in bounds, the tilde shown exactly on unoccupied tiles, and the button equal to the corner predicate |
| DragPaint.DisplayMatchesOccupancy | src/main.js:136-150 | in a consistent state a tile shows `~` exactly when its key is unoccupied, and an occupied tile shows one of `gardeningEmojis` |
| DragPaint.RemovingACornerHidesButton | src/main.js:157-170 | a remove on any corner hides the button at once |
| DragPaint.FillingTheLastCornerShowsButton | src/main.js:157-170 | a place on the last empty corner shows the button at once |
| Gestures.StepPreservesConsistent | src/main.js:173-213 | each of the three pointer transitions keeps the consistency invariant and leaves no action pending outside a gesture |
| Gestures.RunPreservesConsistent | src/main.js:173-213 | any sequence of pointer events keeps the consistency invariant |
| Gestures.ReachableDisplayMatchesOccupancy | src/main.js:66-80 | after any sequence of events from page load, each tile shows `~` exactly when unoccupied, other text is one of `gardeningEmojis`, the button shows the corner predicate, and no action is pending outside a gesture |
| Gestures.ActionKeptDuringGesture | src/main.js:131-133 | once the action is set, moves never change it or the dragging flag |
| Gestures.ActionChosenByFirstTile | src/main.js:131-133 | during a gesture with no action yet, the first tile reached decides it from that tile's occupancy when the gesture began; with no tile reached it stays null |
| Gestures.GestureActionFromFirstTile | src/main.js:173-184 | for a whole gesture (press, then moves) the action is decided by the first tile the press or a move reaches |
| Gestures.OneDirectionPerGesture | src/main.js:136-150 | a placing gesture never clears an occupied tile, a removing one never fills an empty tile, and one that reached no tile changes nothing |
| Gestures.GestureIsOneDirection | src/main.js:173-184 | the same for a gesture counted from the press |
| Gestures.MovesAfterReleaseDoNothing | src/main.js:180-189 | after release, moves change nothing until the next press |
| Gestures.GuardedActionIsNoOp | src/main.js:136-150 | place on an occupied tile or remove on an empty one changes neither the presence map nor any tile; only the button is re-evaluated |
| Gestures.InteractIdempotent | src/main.js:123-154 | handling the same tile twice in a row equals handling it once, whatever emoji the second draw picks |
| Gestures.MixedDragPlaces | src/main.js:131-150 | pressing on an empty tile, then dragging over an occupied and an empty one, places on both empty tiles and leaves the occupied one occupied |
| Canvas.GardenCanvas.constructor | src/main.js:66-80 | the nested row/column loop puts a tilde in every tile, the presence map is empty and the button hidden: the initial state |
| Canvas.GardenCanvas.CheckEasterEgg | src/main.js:157-170 | sets the button's visibility to the corner predicate, changing nothing else |
| Canvas.GardenCanvas.HandleTileInteraction | src/main.js:123-154 | updates the fields in place to exactly the state `DragPaint.Interact` describes |
| Canvas.GardenCanvas.HandleMouseDown | src/main.js:173-178 | keeps the object invariant and reaches the state `DragPaint.PointerDown` describes |
| Canvas.GardenCanvas.HandleMouseMove | src/main.js:180-184 | keeps the object invariant and reaches the state `DragPaint.PointerMove` describes |
| Canvas.GardenCanvas.HandleMouseUp | src/main.js:186-189 | keeps the object invariant and reaches the state `DragPaint.PointerUp` describes |
| Canvas.GardenCanvas.HandleTouchStart | src/main.js:192-199 | the touch press behaves exactly as the mouse press |
| Canvas.GardenCanvas.HandleTouchMove | src/main.js:201-207 | the touch move behaves exactly as the mouse move |
| Canvas.GardenCanvas.HandleTouchEnd | src/main.js:209-213 | the touch end behaves exactly as the mouse release |

## Left out

- DOM construction in `initCanvas` (border container, border glyphs, CSS classes, grid
  template styles): presentation only; the model keeps only the tiles' contents.
- The viewport-dependent `TILE_SIZE`: presentation only, it does not affect the grid.
- Registration of the event listeners: the model calls the handlers directly;
  `mouseleave` is bound to `handleMouseUp`, so it is the same transition.
- `e.preventDefault()` in the touch handlers and the hit-testing itself: the tile under
  the pointer is an input (`Option<Tile>`); `parseInt` of the tile's `data-col` and
  `data-row` gives back the numbers `initCanvas` stored, so a tile is its position.
  When a touch moves outside the viewport, `document.elementFromPoint` returns null and
  the `.closest` call on it throws, so the handler stops before `handleTileInteraction`;
  the state is then unchanged, which is what a move with no tile (`None`) gives.
- Navigation to `/secret.html` when the button is clicked: an external browser effect.
- `Math.random`: floating point and nondeterministic; replaced by the index `pick`.
- Glyph identity beyond the index: the model records which entry of `gardeningEmojis`
  was drawn, not the DOM nodes (`innerHTML`, the tilde `span`) that display it.
- Calling `checkEasterEgg` before `initCanvas` has created `noteButton` would throw; no
  handler can run before then, so the model always has a button.
- Canvas.GardenCanvas.HandleTileInteraction: does not restate the object invariant in
  its own contract; its `ensures` gives the exact new state through `DragPaint.Interact`,
  and the handlers that call it get `Valid()` back from that, as
  `DragPaint.InteractPreservesConsistent` proves for the transition.
