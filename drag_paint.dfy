/**
 * The drag-paint state machine of src/main.js as values.
 *
 * A Garden holds everything the event handlers read and write: the presence map
 * `gridData`, what each tile shows, the two gesture flags `isDragging` and
 * `dragAction`, and whether the easter-egg button is visible. Each handler is a
 * function from the state before to the state after; the class in canvas.dfy runs
 * the same transitions in place and is proved against these functions.
 */
module DragPaint {
  import opened Wrappers

  /** GRID_COLS and GRID_ROWS. */
  const GridCols: int := 10
  const GridRows: int := 8

  /** gardeningEmojis, in order, duplicates included. */
  const Emojis: seq<string> := [
    "🌱", "🌿", "🍀", "☘️", "🌾", "🌵", "🌴", "🌳", "🌲",
    "🌷", "🌸", "🌺", "🌻", "🌼", "🌹", "🥀", "🏵️", "💐",
    "🌰", "🍄", "🌷", "🌸", "🌻", "🌺"
  ]

  /** The index Math.floor(Math.random() * gardeningEmojis.length) can produce. */
  type EmojiIndex = i: int | 0 <= i < |Emojis|

  /** A grid position; the map key `getGridKey(col, row)` stands for it (see Keys.GridKeyInjective). */
  datatype Cell = Cell(col: int, row: int)

  predicate InBounds(c: Cell) {
    0 <= c.col < GridCols && 0 <= c.row < GridRows
  }

  /** A tile element of the canvas: initCanvas creates one per in-bounds position. */
  type Tile = c: Cell | InBounds(c) witness Cell(0, 0)

  /** What a tile shows: the tilde span, or the emoji at an index of gardeningEmojis. */
  datatype Glyph = Tilde | Emoji(index: EmojiIndex)

  /** The text content of a tile showing `g`. */
  function Text(g: Glyph): (t: string)
    ensures g.Tilde? <==> t == "~"
    ensures g.Emoji? ==> t in Emojis
  {
    match g
    case Tilde => "~"
    case Emoji(i) => Emojis[i]
  }

  /** The two values dragAction takes besides null. */
  datatype Action = Place | Remove

  datatype Garden = Garden(
    grid: map<Cell, bool>,
    display: map<Cell, Glyph>,
    isDragging: bool,
    dragAction: Option<Action>,
    buttonVisible: bool)

  /** `gridData[key]` read as a condition: a missing key is undefined, hence false. */
  predicate Occupied(grid: map<Cell, bool>, c: Cell) {
    c in grid && grid[c]
  }

  /** The four corners checkEasterEgg looks at. */
  function Corners(): set<Cell> {
    {Cell(0, 0), Cell(GridCols - 1, 0), Cell(0, GridRows - 1), Cell(GridCols - 1, GridRows - 1)}
  }

  predicate AllCornersOccupied(grid: map<Cell, bool>) {
    forall c :: c in Corners() ==> Occupied(grid, c)
  }

  /** All positions that have a tile. */
  function AllCells(): set<Cell> {
    set col: int, row: int | 0 <= col < GridCols && 0 <= row < GridRows :: Cell(col, row)
  }

  lemma AllCellsAreInBounds(c: Cell)
    ensures c in AllCells() <==> InBounds(c)
  {
    if InBounds(c) {
      assert c == Cell(c.col, c.row);
    }
  }

  /**
   * The state right after initCanvas: an empty presence map, every tile showing the
   * tilde, no gesture, and the button created with the `hidden` class.
   */
  function Initial(): (r: Garden)
    ensures r.grid == map[] && !r.isDragging && r.dragAction == None && !r.buttonVisible
    ensures forall c :: c in r.display ==> InBounds(c) && r.display[c] == Tilde
  {
    Garden(map[], map c | c in AllCells() :: Tilde, false, None, false)
  }

  /**
   * What every reachable state satisfies: only tiles are keys, every tile has a
   * glyph, a tile shows the tilde exactly when its key is not occupied, and the
   * button is visible exactly when the four corners are occupied.
   */
  ghost predicate Consistent(s: Garden) {
    && (forall c :: c in s.grid ==> InBounds(c))
    && (forall c :: c in s.display <==> InBounds(c))
    && (forall c :: c in s.display ==> (s.display[c] == Tilde <==> !Occupied(s.grid, c)))
    && s.buttonVisible == AllCornersOccupied(s.grid)
  }

  /** Outside a gesture no action is pending. */
  predicate Settled(s: Garden) {
    !s.isDragging ==> s.dragAction == None
  }

  /** checkEasterEgg: the visibility is set outright from the four corner reads, never toggled. */
  function CheckEasterEgg(s: Garden): (r: Garden)
    ensures r.buttonVisible == AllCornersOccupied(s.grid)
    ensures r.(buttonVisible := s.buttonVisible) == s
  {
    var topLeft := Occupied(s.grid, Cell(0, 0));
    var topRight := Occupied(s.grid, Cell(GridCols - 1, 0));
    var bottomLeft := Occupied(s.grid, Cell(0, GridRows - 1));
    var bottomRight := Occupied(s.grid, Cell(GridCols - 1, GridRows - 1));
    s.(buttonVisible := topLeft && topRight && bottomLeft && bottomRight)
  }

  /** The action a gesture settles on when its first tile is `c`. */
  function FirstAction(grid: map<Cell, bool>, c: Cell): (a: Action)
    ensures a == Remove <==> Occupied(grid, c)
    ensures a == Place <==> !Occupied(grid, c)
  {
    if Occupied(grid, c) then Remove else Place
  }

  /**
   * handleTileInteraction(tile): with no tile nothing happens; otherwise a pending
   * action is resolved from this tile, the action is performed only where it
   * changes something, and the easter egg is checked again.
   */
  function Interact(s: Garden, tile: Option<Tile>, pick: EmojiIndex): (r: Garden)
    ensures tile.None? ==> r == s
    ensures tile.Some? ==> var c := tile.value;
      // the action is decided by this tile only if none was pending, and it is then kept
      && r.dragAction == Some(if s.dragAction.Some? then s.dragAction.value else FirstAction(s.grid, c))
      // the action never toggles: afterwards the tile is in the action's target state
      && (r.dragAction == Some(Place) ==> Occupied(r.grid, c))
      && (r.dragAction == Some(Remove) ==> !Occupied(r.grid, c))
      // a tile already in the target state is left exactly as it was
      && (Occupied(s.grid, c) == Occupied(r.grid, c) ==>
            r.grid == s.grid && r.display == s.display)
      // a tile that does change is redrawn to match: the tilde exactly when it is now empty
      && (Occupied(s.grid, c) != Occupied(r.grid, c) ==>
            c in r.display && (r.display[c] == Tilde <==> !Occupied(r.grid, c)))
      // nothing but this tile changes, and the gesture flag is untouched
      && (forall d :: d != c ==> Occupied(r.grid, d) == Occupied(s.grid, d))
      && (forall d :: d != c ==> (d in r.grid <==> d in s.grid))
      && (forall d :: d != c && d in s.display ==> d in r.display && r.display[d] == s.display[d])
      && (forall d :: d != c ==> (d in r.display <==> d in s.display))
      && (c in s.display ==> c in r.display)
      && r.isDragging == s.isDragging
      // the button reflects the corners after the interaction
      && r.buttonVisible == AllCornersOccupied(r.grid)
  {
    match tile
    case None => s
    case Some(c) =>
      var action := if s.dragAction == None then FirstAction(s.grid, c) else s.dragAction.value;
      var resolved := s.(dragAction := Some(action));
      var acted :=
        if action == Remove && Occupied(s.grid, c) then
          resolved.(grid := s.grid[c := false], display := s.display[c := Tilde])
        else if action == Place && !Occupied(s.grid, c) then
          resolved.(grid := s.grid[c := true], display := s.display[c := Emoji(pick)])
        else
          resolved;
      CheckEasterEgg(acted)
  }

  /** handleMouseDown / handleTouchStart: a new gesture with no action yet, then the tile under the pointer. */
  function PointerDown(s: Garden, tile: Option<Tile>, pick: EmojiIndex): (r: Garden)
    ensures r.isDragging
    ensures tile.None? ==> r == s.(isDragging := true, dragAction := None)
    ensures tile.Some? ==>
      && r.dragAction == Some(FirstAction(s.grid, tile.value))
      && Occupied(r.grid, tile.value) == !Occupied(s.grid, tile.value)
  {
    Interact(s.(isDragging := true, dragAction := None), tile, pick)
  }

  /** handleMouseMove / handleTouchMove: ignored unless a gesture is under way. */
  function PointerMove(s: Garden, tile: Option<Tile>, pick: EmojiIndex): (r: Garden)
    ensures !s.isDragging ==> r == s
    ensures r.isDragging == s.isDragging
    ensures s.isDragging && s.dragAction.Some? && tile.Some? ==> r.dragAction == s.dragAction
  {
    if !s.isDragging then s else Interact(s, tile, pick)
  }

  /** handleMouseUp (also on mouseleave) / handleTouchEnd: the gesture ends; the grid is left alone. */
  function PointerUp(s: Garden): (r: Garden)
    ensures !r.isDragging && r.dragAction == None
    ensures r.grid == s.grid && r.display == s.display && r.buttonVisible == s.buttonVisible
  {
    s.(isDragging := false, dragAction := None)
  }

  lemma InitialIsConsistent()
    ensures Consistent(Initial()) && Settled(Initial())
    ensures Initial().grid == map[]
    ensures forall c :: InBounds(c) ==> c in Initial().display && Text(Initial().display[c]) == "~"
    ensures !Initial().buttonVisible
  {
    forall c
      ensures c in Initial().display <==> InBounds(c)
    {
      AllCellsAreInBounds(c);
    }
    assert !Occupied(Initial().grid, Cell(0, 0));
  }

  lemma InteractPreservesConsistent(s: Garden, tile: Option<Tile>, pick: EmojiIndex)
    requires Consistent(s)
    ensures Consistent(Interact(s, tile, pick))
  {
  }

  /** In a consistent state a tile's text is `~` exactly when its key is not occupied, and otherwise one of gardeningEmojis. */
  lemma DisplayMatchesOccupancy(s: Garden, c: Tile)
    requires Consistent(s)
    ensures c in s.display
    ensures Text(s.display[c]) == "~" <==> !Occupied(s.grid, c)
    ensures Occupied(s.grid, c) ==> Text(s.display[c]) in Emojis
  {
  }

  /** Clearing any one corner hides the button at once. */
  lemma RemovingACornerHidesButton(s: Garden, c: Tile, pick: EmojiIndex)
    requires c in Corners()
    requires Interact(s, Some(c), pick).dragAction == Some(Remove)
    ensures !Interact(s, Some(c), pick).buttonVisible
  {
  }

  /** Filling the last empty corner shows the button at once. */
  lemma FillingTheLastCornerShowsButton(s: Garden, c: Tile, pick: EmojiIndex)
    requires c in Corners()
    requires forall d :: d in Corners() && d != c ==> Occupied(s.grid, d)
    requires Interact(s, Some(c), pick).dragAction == Some(Place)
    ensures Interact(s, Some(c), pick).buttonVisible
  {
  }
}
