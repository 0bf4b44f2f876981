/** Legal-move generation for the player whose turn it is: single orthogonal
    steps, straight jumps over an adjacent pawn, and the engine's fallback
    for a jump that would leave the board. */
module Moves {
  import opened Board
  import opened Walls
  import opened GameState

  /** The two side offsets the fallback tries after a jump in direction `d`
      would leave the board. For an axial `d` these are (dr + 1, dc) and
      (dr - 1, dc), or (dr, dc + 1) and (dr, dc - 1): not the directions
      perpendicular to `d`. */
  function FallbackSides(d: Delta): (sides: seq<Delta>)
    ensures |sides| == 2
  {
    if d.0 != 0 && d.1 != 0 then [(-d.0, d.1), (d.0, -d.1)]
    else if d.0 != 0 then [(d.0 + 1, d.1), (d.0 - 1, d.1)]
    else [(d.0, d.1 + 1), (d.0, d.1 - 1)]
  }

  /** One side landing from the jumped-over cell `over`, kept when it is on
      the board, not blocked from `over`, and free. */
  function SideJump(s: State, over: Cell, side: Delta): (moves: seq<Cell>)
    ensures forall m :: m in moves ==> InBounds(m) && !Occupied(s.players, m)
  {
    var landing := Shift(over, side);
    if InBounds(landing) && !s.walls.Blocks(over, side) && !Occupied(s.players, landing) then [landing] else []
  }

  function FallbackMoves(s: State, over: Cell, d: Delta): (moves: seq<Cell>)
    ensures forall m :: m in moves ==> InBounds(m) && !Occupied(s.players, m)
  {
    var sides := FallbackSides(d);
    SideJump(s, over, sides[0]) + SideJump(s, over, sides[1])
  }

  // Reference definition of a legal destination, stated rule by rule.

  /** A plain step in direction `d` onto a free, reachable neighbour. */
  predicate StepTo(s: State, from: Cell, d: Delta, m: Cell) {
    var next := Shift(from, d);
    && InBounds(next) && !s.walls.Blocks(from, d)
    && !Occupied(s.players, next)
    && m == next
  }

  /** A straight jump over the pawn next to `from` in direction `d`: neither
      half-step is blocked and the landing cell is on the board and free. */
  predicate JumpTo(s: State, from: Cell, d: Delta, m: Cell) {
    var next := Shift(from, d);
    var landing := Shift(next, d);
    && InBounds(next) && !s.walls.Blocks(from, d)
    && Occupied(s.players, next)
    && InBounds(landing) && !s.walls.Blocks(next, d)
    && !Occupied(s.players, landing)
    && m == landing
  }

  predicate LegalDestination(s: State, m: Cell)
    requires HasTurn(s)
  {
    var from := s.players[s.current].pos;
    exists i :: 0 <= i < 4 && (StepTo(s, from, Directions[i], m) || JumpTo(s, from, Directions[i], m))
  }

  /** A side landing on the jumped pawn itself, or off the board, adds nothing. */
  lemma SideJumpEmpty(s: State, over: Cell, side: Delta)
    requires (side == (0, 0) && Occupied(s.players, over)) || !InBounds(Shift(over, side))
    ensures SideJump(s, over, side) == []
  {
  }

  /** For the four directions the off-board fallback contributes nothing:
      one side offset is (0, 0) and lands on the pawn being jumped, the
      other lands two cells beyond the edge. */
  lemma FallbackIsEmpty(s: State, from: Cell, d: Delta)
    requires InBounds(Shift(from, d)) && Occupied(s.players, Shift(from, d))
    requires !InBounds(Shift(Shift(from, d), d))
    ensures d in Directions ==> FallbackMoves(s, Shift(from, d), d) == []
  {
    var over := Shift(from, d);
    var sides := FallbackSides(d);
    if d == Directions[0] {
      assert sides == [(0, 0), (-2, 0)];
    } else if d == Directions[1] {
      assert sides == [(2, 0), (0, 0)];
    } else if d == Directions[2] {
      assert sides == [(0, 0), (0, -2)];
    } else if d == Directions[3] {
      assert sides == [(0, 2), (0, 0)];
    }
    if d in Directions {
      SideJumpEmpty(s, over, sides[0]);
      SideJumpEmpty(s, over, sides[1]);
    }
  }

  /** The destinations contributed by direction `d` from cell `from`. For
      the four directions they are exactly the plain step and the straight
      jump the rules allow: the off-board fallback adds nothing. */
  function DirectionMoves(s: State, from: Cell, d: Delta): (moves: seq<Cell>)
    ensures forall m :: m in moves ==> InBounds(m) && !Occupied(s.players, m)
    ensures d in Directions ==>
      forall m :: m in moves <==> StepTo(s, from, d, m) || JumpTo(s, from, d, m)
  {
    var next := Shift(from, d);
    if !InBounds(next) || s.walls.Blocks(from, d) then []
    else if Occupied(s.players, next) then
      var landing := Shift(next, d);
      if !InBounds(landing) then
        FallbackIsEmpty(s, from, d);
        FallbackMoves(s, next, d)
      else if s.walls.Blocks(next, d) || Occupied(s.players, landing) then []
      else [landing]
    else [next]
  }

  /** All destinations of the player to move, direction by direction in the
      order up, down, left, right. They are exactly the legal destinations
      of the reference definition; in particular each is on the board and
      free, so an occupied neighbour is never a destination. */
  function PossibleMoves(s: State): (moves: seq<Cell>)
    requires HasTurn(s)
    ensures forall m :: m in moves ==> InBounds(m) && !Occupied(s.players, m)
    ensures forall m :: m in moves <==> LegalDestination(s, m)
  {
    var from := s.players[s.current].pos;
    var moves := DirectionMoves(s, from, Directions[0]) + DirectionMoves(s, from, Directions[1])
      + DirectionMoves(s, from, Directions[2]) + DirectionMoves(s, from, Directions[3]);
    assert forall m :: LegalDestination(s, m) ==> m in moves by {
      forall m | LegalDestination(s, m) ensures m in moves {
        var i :| 0 <= i < 4 && (StepTo(s, from, Directions[i], m) || JumpTo(s, from, Directions[i], m));
        assert m in DirectionMoves(s, from, Directions[i]);
      }
    }
    moves
  }

  /** A free neighbour on the board is a destination exactly when the unit
      between it and the mover is absent. */
  lemma NeighbourMove(s: State, i: int)
    requires HasTurn(s) && 0 <= i < 4
    requires InBounds(Shift(s.players[s.current].pos, Directions[i]))
    requires !Occupied(s.players, Shift(s.players[s.current].pos, Directions[i]))
    ensures Shift(s.players[s.current].pos, Directions[i]) in PossibleMoves(s)
      <==> !s.walls.Blocks(s.players[s.current].pos, Directions[i])
  {
    var from := s.players[s.current].pos;
    var next := Shift(from, Directions[i]);
    if LegalDestination(s, next) {
      var j :| 0 <= j < 4 && (StepTo(s, from, Directions[j], next) || JumpTo(s, from, Directions[j], next));
      assert !JumpTo(s, from, Directions[j], next);
      assert j == i;
    } else {
      assert !StepTo(s, from, Directions[i], next);
    }
  }

  /** With a pawn next to the mover and the cell beyond it on the board, that
      cell is a destination exactly when neither half-step is blocked and it
      is free. */
  lemma JumpMove(s: State, i: int)
    requires HasTurn(s) && 0 <= i < 4
    requires InBounds(Shift(s.players[s.current].pos, Directions[i]))
    requires Occupied(s.players, Shift(s.players[s.current].pos, Directions[i]))
    requires InBounds(Shift(Shift(s.players[s.current].pos, Directions[i]), Directions[i]))
    ensures
      var from := s.players[s.current].pos;
      var next := Shift(from, Directions[i]);
      var landing := Shift(next, Directions[i]);
      landing in PossibleMoves(s) <==>
        !s.walls.Blocks(from, Directions[i]) && !s.walls.Blocks(next, Directions[i])
        && !Occupied(s.players, landing)
  {
    var from := s.players[s.current].pos;
    var next := Shift(from, Directions[i]);
    var landing := Shift(next, Directions[i]);
    if LegalDestination(s, landing) {
      var j :| 0 <= j < 4 && (StepTo(s, from, Directions[j], landing) || JumpTo(s, from, Directions[j], landing));
      // a step moves one cell and a jump two, so only the jump in direction i lands here
      assert !StepTo(s, from, Directions[j], landing);
      assert j == i;
    } else {
      assert !JumpTo(s, from, Directions[i], landing);
    }
  }

  /** The example position: a pawn at (4, 4) to move, with another directly
      above it at (3, 4), and no walls. */
  function JumpExampleState(): (s: State)
    ensures HasTurn(s)
  {
    State([Player((4, 4), GoalRow(0), 10, []), Player((3, 4), GoalRow(8), 10, [])], NoWalls, 0, false, None)
  }

  /** In the example position the mover may jump to (2, 4) and may not step
      onto the occupied (3, 4). */
  lemma JumpExample()
    ensures (2, 4) in PossibleMoves(JumpExampleState()) && (3, 4) !in PossibleMoves(JumpExampleState())
  {
    var s := JumpExampleState();
    assert Occupied(s.players, (3, 4)) by { assert s.players[1].pos == (3, 4); }
    JumpMove(s, 0);
  }
}
