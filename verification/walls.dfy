/** Wall set: placed walls recorded as blocker units, one set per orientation.

    A horizontal unit (r, c) blocks the step between (r, c) and (r + 1, c);
    a vertical unit (r, c) blocks the step between (r, c) and (r, c + 1).
    A wall anchored at intersection (r, c) occupies two adjacent units. */
module Walls {
  import opened Board

  datatype Orientation = Horizontal | Vertical

  /** The two blocker units a wall anchored at (r, c) occupies. */
  function Units(o: Orientation, r: int, c: int): set<Cell> {
    match o
    case Horizontal => {(r, c), (r, c + 1)}
    case Vertical => {(r, c), (r + 1, c)}
  }

  /** Anchors range over the inner intersections 0..N-2 in both axes. */
  predicate AnchorInBounds(r: int, c: int) {
    0 <= r < N - 1 && 0 <= c < N - 1
  }

  datatype WallSet = WallSet(horizontal: set<Cell>, vertical: set<Cell>) {

    /** Whether the step from `from` by `d` is blocked, with the four checks
        the engine makes: a row delta of -1 or 1 looks at the horizontal unit
        above or below, a column delta of -1 or 1 at the vertical unit to the
        left or right. Any other delta is never blocked. */
    predicate Blocks(from: Cell, d: Delta) {
      var (r, c) := from;
      || (d.0 == -1 && (r - 1, c) in horizontal)
      || (d.0 == 1 && (r, c) in horizontal)
      || (d.1 == -1 && (r, c - 1) in vertical)
      || (d.1 == 1 && (r, c) in vertical)
    }

    /** Either unit of the candidate is already present in its orientation. */
    predicate Overlaps(o: Orientation, r: int, c: int) {
      match o
      case Horizontal => (r, c) in horizontal || (r, c + 1) in horizontal
      case Vertical => (r, c) in vertical || (r + 1, c) in vertical
    }

    /** The engine's crossing test: a horizontal candidate at (r, c) is refused
        when the vertical units (r, c) and (r + 1, c) are both present, a
        vertical one when the horizontal units (r, c) and (r, c + 1) are. */
    predicate Crosses(o: Orientation, r: int, c: int) {
      match o
      case Horizontal => (r, c) in vertical && (r + 1, c) in vertical
      case Vertical => (r, c) in horizontal && (r, c + 1) in horizontal
    }

    /** The trial (or committed) wall set with the candidate's two units added. */
    function With(o: Orientation, r: int, c: int): (w: WallSet)
      ensures Units(o, r, c) <= (if o.Horizontal? then w.horizontal else w.vertical)
      ensures horizontal <= w.horizontal && vertical <= w.vertical
    {
      match o
      case Horizontal => WallSet(horizontal + Units(o, r, c), vertical)
      case Vertical => WallSet(horizontal, vertical + Units(o, r, c))
    }
  }

  const NoWalls: WallSet := WallSet({}, {})

  /** Adding a wall keeps every block already in place, and blocks both steps
      it spans, in both directions of travel. */
  lemma WallBlocksItsSteps(w: WallSet, o: Orientation, r: int, c: int, from: Cell, d: Delta)
    ensures w.Blocks(from, d) ==> w.With(o, r, c).Blocks(from, d)
    ensures o.Horizontal? ==>
      && w.With(o, r, c).Blocks((r, c), (1, 0)) && w.With(o, r, c).Blocks((r + 1, c), (-1, 0))
      && w.With(o, r, c).Blocks((r, c + 1), (1, 0)) && w.With(o, r, c).Blocks((r + 1, c + 1), (-1, 0))
    ensures o.Vertical? ==>
      && w.With(o, r, c).Blocks((r, c), (0, 1)) && w.With(o, r, c).Blocks((r, c + 1), (0, -1))
      && w.With(o, r, c).Blocks((r + 1, c), (0, 1)) && w.With(o, r, c).Blocks((r + 1, c + 1), (0, -1))
  {
  }

  /** An existing perpendicular wall with the same anchor is always caught by
      the crossing test. */
  lemma CrossingCaught(w: WallSet, o: Orientation, r: int, c: int)
    requires o.Horizontal? ==> Units(Vertical, r, c) <= w.vertical
    requires o.Vertical? ==> Units(Horizontal, r, c) <= w.horizontal
    ensures w.Crosses(o, r, c)
  {
  }

  /** The crossing test is literal: two vertical walls stacked at (r - 1, c)
      and (r + 1, c) also refuse a horizontal wall at (r, c), though neither
      has (r, c) as its anchor. */
  lemma StackedWallsRefuseCrossing(r: int, c: int)
    ensures NoWalls.With(Vertical, r - 1, c).With(Vertical, r + 1, c).Crosses(Horizontal, r, c)
    ensures !NoWalls.With(Vertical, r - 1, c).With(Vertical, r + 1, c).Overlaps(Horizontal, r, c)
  {
  }
}
