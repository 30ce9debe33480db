/**
 * The module-level state of src/main.js and its event handlers, updated in place.
 *
 * The fields are the program's globals: `gridData`, the tiles' contents, the
 * gesture flags `isDragging` and `dragAction`, and whether `noteButton` lacks the
 * `hidden` class. Each handler is proved to take State() to exactly the state the
 * matching function of module DragPaint gives, so every property proved there (and
 * in module Gestures) holds of these methods.
 */
module Canvas {
  import opened Wrappers
  import opened DragPaint

  class GardenCanvas {
    var grid: map<Cell, bool>
    var display: map<Cell, Glyph>
    var isDragging: bool
    var dragAction: Option<Action>
    var buttonVisible: bool

    ghost function State(): Garden
      reads this
    {
      Garden(grid, display, isDragging, dragAction, buttonVisible)
    }

    ghost predicate Valid()
      reads this
    {
      Consistent(State()) && Settled(State())
    }

    /** initCanvas: a tilde in every tile, row by row, and the button hidden. */
    constructor ()
      ensures Valid()
      ensures State() == Initial()
    {
      grid := map[];
      isDragging := false;
      dragAction := None;
      var tiles: map<Cell, Glyph> := map[];
      var row := 0;
      while row < GridRows
        invariant 0 <= row <= GridRows
        invariant forall c :: c in tiles <==> InBounds(c) && c.row < row
        invariant forall c :: c in tiles ==> tiles[c] == Tilde
      {
        var col := 0;
        while col < GridCols
          invariant 0 <= col <= GridCols
          invariant forall c :: c in tiles <==> InBounds(c) && (c.row < row || (c.row == row && c.col < col))
          invariant forall c :: c in tiles ==> tiles[c] == Tilde
        {
          tiles := tiles[Cell(col, row) := Tilde];
          col := col + 1;
        }
        row := row + 1;
      }
      display := tiles;
      buttonVisible := false;
      new;
      InitialIsConsistent();
      forall c
        ensures c in display <==> c in Initial().display
      {
        AllCellsAreInBounds(c);
      }
    }

    /** checkEasterEgg: show the button when the four corners are occupied, hide it otherwise. */
    method CheckEasterEgg()
      modifies this
      ensures buttonVisible == AllCornersOccupied(grid)
      ensures State() == DragPaint.CheckEasterEgg(old(State()))
    {
      var topLeft := Occupied(grid, Cell(0, 0));
      var topRight := Occupied(grid, Cell(GridCols - 1, 0));
      var bottomLeft := Occupied(grid, Cell(0, GridRows - 1));
      var bottomRight := Occupied(grid, Cell(GridCols - 1, GridRows - 1));
      if topLeft && topRight && bottomLeft && bottomRight {
        buttonVisible := true;
      } else {
        buttonVisible := false;
      }
    }

    /**
     * handleTileInteraction: `pick` is the index the random draw would produce.
     * The handlers that call it show that it keeps the object invariant
     * (DragPaint.InteractPreservesConsistent).
     */
    method HandleTileInteraction(tile: Option<Tile>, pick: EmojiIndex)
      modifies this
      ensures State() == Interact(old(State()), tile, pick)
    {
      if tile.None? {
        return;
      }
      var key := tile.value;
      if dragAction == None {
        dragAction := Some(if Occupied(grid, key) then Remove else Place);
      }
      if dragAction == Some(Remove) && Occupied(grid, key) {
        grid := grid[key := false];
        display := display[key := Tilde];
      } else if dragAction == Some(Place) && !Occupied(grid, key) {
        grid := grid[key := true];
        display := display[key := Emoji(pick)];
      }
      CheckEasterEgg();
    }

    /** handleMouseDown: start a gesture with no action yet and handle the tile under the pointer. */
    method HandleMouseDown(tile: Option<Tile>, pick: EmojiIndex)
      requires Valid()
      modifies this
      ensures Valid()
      ensures State() == PointerDown(old(State()), tile, pick)
    {
      isDragging := true;
      dragAction := None;
      HandleTileInteraction(tile, pick);
    }

    /** handleMouseMove: ignored unless a gesture is under way. */
    method HandleMouseMove(tile: Option<Tile>, pick: EmojiIndex)
      requires Valid()
      modifies this
      ensures Valid()
      ensures State() == PointerMove(old(State()), tile, pick)
    {
      if !isDragging {
        return;
      }
      HandleTileInteraction(tile, pick);
    }

    /** handleMouseUp, also bound to mouseleave: end the gesture. */
    method HandleMouseUp()
      requires Valid()
      modifies this
      ensures Valid()
      ensures State() == PointerUp(old(State()))
    {
      isDragging := false;
      dragAction := None;
    }

    /** handleTouchStart: `tile` is the tile hit-tested under the first touch point. */
    method HandleTouchStart(tile: Option<Tile>, pick: EmojiIndex)
      requires Valid()
      modifies this
      ensures Valid()
      ensures State() == PointerDown(old(State()), tile, pick)
    {
      HandleMouseDown(tile, pick);
    }

    /** handleTouchMove: `tile` is the tile hit-tested under the first touch point. */
    method HandleTouchMove(tile: Option<Tile>, pick: EmojiIndex)
      requires Valid()
      modifies this
      ensures Valid()
      ensures State() == PointerMove(old(State()), tile, pick)
    {
      HandleMouseMove(tile, pick);
    }

    /** handleTouchEnd */
    method HandleTouchEnd()
      requires Valid()
      modifies this
      ensures Valid()
      ensures State() == PointerUp(old(State()))
    {
      HandleMouseUp();
    }
  }
}
