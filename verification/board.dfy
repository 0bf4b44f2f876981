/** Board geometry: the fixed 9x9 grid, cells, the four step directions and
    the single-axis goal predicate of a player. */
module Board {

  /** Side length of the board (the engine hard-codes 9). */
  const N: int := 9

  /** A cell as (row, column), 0-indexed from the top-left corner. */
  type Cell = (int, int)

  /** A step or offset (row delta, column delta). */
  type Delta = (int, int)

  predicate InBounds(cell: Cell) {
    0 <= cell.0 < N && 0 <= cell.1 < N
  }

  /** The four orthogonal directions, in the order the engine tries them:
      up, down, left, right. */
  const Directions: seq<Delta> := [(-1, 0), (1, 0), (0, -1), (0, 1)]

  function Shift(cell: Cell, d: Delta): Cell {
    (cell.0 + d.0, cell.1 + d.1)
  }

  /** A player's goal: reaching a fixed row, or a fixed column. */
  datatype Goal = GoalRow(row: int) | GoalCol(col: int)

  predicate Reached(goal: Goal, cell: Cell) {
    match goal
    case GoalRow(r) => cell.0 == r
    case GoalCol(c) => cell.1 == c
  }

  /** Every cell of the board. */
  function BoardCells(): set<Cell> {
    set r, c | 0 <= r < N && 0 <= c < N :: (r, c)
  }

  lemma InBoundsIsBoardCell(cell: Cell)
    ensures InBounds(cell) <==> cell in BoardCells()
  {
    if InBounds(cell) {
      var (r, c) := cell;
      assert (r, c) in BoardCells();
    }
  }

  /** Cells (row, c) of one row with c < cols. */
  function RowPrefix(row: int, cols: nat): set<Cell> {
    set c | 0 <= c < cols :: (row, c)
  }

  /** Cells of the first `rows` rows. */
  function RowsPrefix(rows: nat): set<Cell> {
    set r, c | 0 <= r < rows && 0 <= c < N :: (r, c)
  }

  lemma {:induction false} RowPrefixCount(row: int, cols: nat)
    ensures |RowPrefix(row, cols)| == cols
  {
    if cols > 0 {
      RowPrefixCount(row, cols - 1);
      assert RowPrefix(row, cols) == RowPrefix(row, cols - 1) + {(row, cols - 1)};
      assert (row, cols - 1) !in RowPrefix(row, cols - 1);
    } else {
      assert RowPrefix(row, cols) == {};
    }
  }

  lemma {:induction false} RowsPrefixCount(rows: nat)
    ensures |RowsPrefix(rows)| == rows * N
  {
    if rows > 0 {
      RowsPrefixCount(rows - 1);
      RowPrefixCount(rows - 1, N);
      var last := RowPrefix(rows - 1, N);
      assert RowsPrefix(rows) == RowsPrefix(rows - 1) + last by {
        forall cell | cell in RowsPrefix(rows)
          ensures cell in RowsPrefix(rows - 1) + last
        {
          var (r, c) := cell;
          if r < rows - 1 {
            assert (r, c) in RowsPrefix(rows - 1);
          } else {
            assert (r, c) in last;
          }
        }
      }
      assert RowsPrefix(rows - 1) * last == {} by {
        forall cell | cell in last ensures cell !in RowsPrefix(rows - 1) { }
      }
    } else {
      assert RowsPrefix(rows) == {};
    }
  }

  /** The board has exactly N * N cells. */
  lemma BoardCellsCount()
    ensures |BoardCells()| == N * N
  {
    RowsPrefixCount(N);
    assert BoardCells() == RowsPrefix(N);
  }
}
