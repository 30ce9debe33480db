/**
 * Sequences of pointer events and what a whole gesture does.
 *
 * Mouse and touch events reach the same three transitions once hit-testing has
 * produced the tile under the pointer (or none), so one event type covers both:
 * mousedown/touchstart, mousemove/touchmove, and mouseup/mouseleave/touchend.
 */
module Gestures {
  import opened Wrappers
  import opened DragPaint

  datatype Event =
    | Down(tile: Option<Tile>, pick: EmojiIndex)
    | Move(tile: Option<Tile>, pick: EmojiIndex)
    | Up

  function Step(s: Garden, e: Event): Garden {
    match e
    case Down(t, p) => PointerDown(s, t, p)
    case Move(t, p) => PointerMove(s, t, p)
    case Up => PointerUp(s)
  }

  /** The state after handling `events` in order, starting from `s`. */
  function Run(s: Garden, events: seq<Event>): Garden
    decreases |events|
  {
    if events == [] then s else Run(Step(s, events[0]), events[1..])
  }

  /** The middle of a gesture: only moves, no new press and no release. */
  predicate AllMoves(events: seq<Event>) {
    forall i :: 0 <= i < |events| ==> events[i].Move?
  }

  /** The first tile hit by a run of moves, if any. */
  function FirstTile(events: seq<Event>): (t: Option<Tile>)
    requires AllMoves(events)
    ensures t.Some? ==> exists i :: 0 <= i < |events| && events[i].tile == t
    decreases |events|
  {
    if events == [] then None
    else if events[0].tile.Some? then events[0].tile
    else FirstTile(events[1..])
  }

  /** No occupied key is cleared. */
  ghost predicate Grows(before: map<Cell, bool>, after: map<Cell, bool>) {
    forall c :: Occupied(before, c) ==> Occupied(after, c)
  }

  /** No empty key is filled. */
  ghost predicate Shrinks(before: map<Cell, bool>, after: map<Cell, bool>) {
    forall c :: Occupied(after, c) ==> Occupied(before, c)
  }

  lemma {:induction false} RunAppend(s: Garden, xs: seq<Event>, ys: seq<Event>)
    ensures Run(s, xs + ys) == Run(Run(s, xs), ys)
    decreases |xs|
  {
    if xs == [] {
      assert xs + ys == ys;
    } else {
      assert (xs + ys)[1..] == xs[1..] + ys;
      RunAppend(Step(s, xs[0]), xs[1..], ys);
    }
  }

  /** Every handler keeps the display in step with the presence map and the button in step with the corners. */
  lemma StepPreservesConsistent(s: Garden, e: Event)
    requires Consistent(s) && Settled(s)
    ensures Consistent(Step(s, e)) && Settled(Step(s, e))
  {
    match e
    case Down(t, p) => InteractPreservesConsistent(s.(isDragging := true, dragAction := None), t, p);
    case Move(t, p) => if s.isDragging { InteractPreservesConsistent(s, t, p); }
    case Up =>
  }

  lemma {:induction false} RunPreservesConsistent(s: Garden, events: seq<Event>)
    requires Consistent(s) && Settled(s)
    ensures Consistent(Run(s, events)) && Settled(Run(s, events))
    decreases |events|
  {
    if events != [] {
      StepPreservesConsistent(s, events[0]);
      RunPreservesConsistent(Step(s, events[0]), events[1..]);
    }
  }

  /**
   * After any sequence of events from page load, every tile shows `~` exactly when
   * its key is not occupied, any other text is one of gardeningEmojis, and the
   * button is visible exactly when the four corners are occupied.
   */
  lemma {:induction false} ReachableDisplayMatchesOccupancy(events: seq<Event>, c: Tile)
    ensures var s := Run(Initial(), events);
      && c in s.display
      && (Text(s.display[c]) == "~" <==> !Occupied(s.grid, c))
      && (Occupied(s.grid, c) ==> Text(s.display[c]) in Emojis)
      && s.buttonVisible == AllCornersOccupied(s.grid)
      && (!s.isDragging ==> s.dragAction == None)
  {
    InitialIsConsistent();
    RunPreservesConsistent(Initial(), events);
    DisplayMatchesOccupancy(Run(Initial(), events), c);
  }

  /** Once an action is set, moves keep it until the gesture ends. */
  lemma {:induction false} ActionKeptDuringGesture(s: Garden, moves: seq<Event>)
    requires AllMoves(moves)
    requires s.dragAction.Some?
    ensures Run(s, moves).dragAction == s.dragAction
    ensures Run(s, moves).isDragging == s.isDragging
    decreases |moves|
  {
    if moves != [] {
      ActionKeptDuringGesture(Step(s, moves[0]), moves[1..]);
    }
  }

  /**
   * During a gesture whose action is still null, the first tile reached decides
   * it: `remove` if that tile was occupied when the gesture began, `place`
   * otherwise; while no tile has been reached the action stays null.
   */
  lemma {:induction false} ActionChosenByFirstTile(s: Garden, moves: seq<Event>)
    requires AllMoves(moves)
    requires s.isDragging && s.dragAction == None
    ensures Run(s, moves).dragAction ==
      match FirstTile(moves)
      case None => None
      case Some(c) => Some(FirstAction(s.grid, c))
    decreases |moves|
  {
    if moves != [] {
      var s1 := Step(s, moves[0]);
      if moves[0].tile.None? {
        ActionChosenByFirstTile(s1, moves[1..]);
      } else {
        ActionKeptDuringGesture(s1, moves[1..]);
      }
    }
  }

  /** The same for a whole gesture, pressed down on `t` (or next to the tiles) and then dragged. */
  lemma GestureActionFromFirstTile(s: Garden, t: Option<Tile>, pick: EmojiIndex, moves: seq<Event>)
    requires AllMoves(moves)
    ensures Run(s, [Down(t, pick)] + moves).dragAction ==
      match FirstTile([Move(t, pick)] + moves)
      case None => None
      case Some(c) => Some(FirstAction(s.grid, c))
  {
    var pressed := s.(isDragging := true, dragAction := None);
    assert Step(s, Down(t, pick)) == Step(pressed, Move(t, pick));
    RunAppend(s, [Down(t, pick)], moves);
    RunAppend(pressed, [Move(t, pick)], moves);
    assert AllMoves([Move(t, pick)] + moves);
    ActionChosenByFirstTile(pressed, [Move(t, pick)] + moves);
  }

  /**
   * A gesture that ends up placing never clears an occupied tile, and one that
   * ends up removing never fills an empty one, whatever mix of tiles it crosses.
   */
  lemma {:induction false} OneDirectionPerGesture(s: Garden, moves: seq<Event>)
    requires AllMoves(moves)
    requires s.isDragging
    ensures Run(s, moves).dragAction == Some(Place) ==> Grows(s.grid, Run(s, moves).grid)
    ensures Run(s, moves).dragAction == Some(Remove) ==> Shrinks(s.grid, Run(s, moves).grid)
    ensures Run(s, moves).dragAction == None ==> Run(s, moves).grid == s.grid
    decreases |moves|
  {
    if moves != [] {
      var s1 := Step(s, moves[0]);
      OneDirectionPerGesture(s1, moves[1..]);
      if s1.dragAction.Some? {
        ActionKeptDuringGesture(s1, moves[1..]);
      }
    }
  }

  /** A whole gesture, from the press on: purely additive or purely subtractive. */
  lemma GestureIsOneDirection(s: Garden, t: Option<Tile>, pick: EmojiIndex, moves: seq<Event>)
    requires AllMoves(moves)
    ensures var r := Run(s, [Down(t, pick)] + moves);
      && (r.dragAction == Some(Place) ==> Grows(s.grid, r.grid))
      && (r.dragAction == Some(Remove) ==> Shrinks(s.grid, r.grid))
      && (r.dragAction == None ==> r.grid == s.grid)
  {
    var pressed := s.(isDragging := true, dragAction := None);
    assert Step(s, Down(t, pick)) == Step(pressed, Move(t, pick));
    RunAppend(s, [Down(t, pick)], moves);
    RunAppend(pressed, [Move(t, pick)], moves);
    assert AllMoves([Move(t, pick)] + moves);
    OneDirectionPerGesture(pressed, [Move(t, pick)] + moves);
  }

  /** After the gesture ends, moves do nothing until the next press. */
  lemma {:induction false} MovesAfterReleaseDoNothing(s: Garden, moves: seq<Event>)
    requires AllMoves(moves)
    ensures Run(PointerUp(s), moves) == PointerUp(s)
    decreases |moves|
  {
    if moves != [] {
      MovesAfterReleaseDoNothing(s, moves[1..]);
    }
  }

  /** Place on an occupied tile, or remove on an empty one, changes nothing but the resolved action and the button check. */
  lemma GuardedActionIsNoOp(s: Garden, c: Tile, pick: EmojiIndex)
    requires (s.dragAction == Some(Place) && Occupied(s.grid, c))
          || (s.dragAction == Some(Remove) && !Occupied(s.grid, c))
    ensures Interact(s, Some(c), pick) == CheckEasterEgg(s)
  {
  }

  /** Reaching the same tile twice in a row does what reaching it once does, whichever emoji the second draw picks. */
  lemma InteractIdempotent(s: Garden, t: Option<Tile>, pick: EmojiIndex, pick': EmojiIndex)
    ensures Interact(Interact(s, t, pick), t, pick') == Interact(s, t, pick)
  {
  }

  /**
   * A drag that starts on an empty tile T1, then crosses an occupied T2 and an
   * empty T3, places on T1 and T3 and leaves T2 occupied.
   */
  lemma MixedDragPlaces(s: Garden, t1: Tile, t2: Tile, t3: Tile, p: EmojiIndex)
    requires !Occupied(s.grid, t1) && Occupied(s.grid, t2) && !Occupied(s.grid, t3)
    ensures var r := Run(s, [Down(Some(t1), p), Move(Some(t2), p), Move(Some(t3), p)]);
      && r.dragAction == Some(Place)
      && Occupied(r.grid, t1) && Occupied(r.grid, t2) && Occupied(r.grid, t3)
  {
    var events := [Down(Some(t1), p), Move(Some(t2), p), Move(Some(t3), p)];
    var s1 := Step(s, events[0]);
    var s2 := Step(s1, events[1]);
    var s3 := Step(s2, events[2]);
    assert Run(s, events) == Run(s1, events[1..]);
    assert Run(s1, events[1..]) == Run(s2, events[2..]);
    assert Run(s2, events[2..]) == Run(s3, []);
  }
}
