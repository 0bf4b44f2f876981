/** Game state: players, the wall set, the turn, the terminal flag, and the
    starting layout the engine sets up for a new match. */
module GameState {
  import opened Board
  import opened Walls

  datatype Option<T> = None | Some(value: T)

  /** A wall as recorded in its owner's list: orientation and anchor. */
  datatype PlacedWall = PlacedWall(orientation: Orientation, r: int, c: int)

  /** One player's pawn cell, goal, walls left to place, and walls placed so far. */
  datatype Player = Player(pos: Cell, goal: Goal, wallsLeft: int, placed: seq<PlacedWall>)

  datatype State = State(
    players: seq<Player>,
    walls: WallSet,
    current: nat,
    gameOver: bool,
    winner: Option<nat>)

  /** Some pawn stands on `cell`. */
  predicate Occupied(players: seq<Player>, cell: Cell) {
    exists i :: 0 <= i < |players| && players[i].pos == cell
  }

  predicate AtGoal(p: Player) {
    Reached(p.goal, p.pos)
  }

  /** The state names an existing player whose turn it is. */
  predicate HasTurn(s: State) {
    s.current < |s.players|
  }

  /** Start cells, goals and wall inventories, in player order; a game with
      fewer than four players uses the first entries. */
  const StartCells: seq<Cell> := [(N - 1, N / 2), (0, N / 2), (N / 2, 0), (N / 2, N - 1)]
  const StartGoals: seq<Goal> := [GoalRow(0), GoalRow(N - 1), GoalCol(N - 1), GoalCol(0)]
  const StartWalls: seq<int> := [10, 10, 5, 5]

  /** The invariant every state of a match keeps:
      - one to four players, and the turn names one of them;
      - every pawn is on the board and no two pawns share a cell;
      - player i has placed exactly as many walls as its inventory lost,
        so its count never goes negative;
      - a player stands on its goal exactly when the game is over with that
        player as the winner, and the turn stays with the winner. */
  predicate Valid(s: State) {
    && 1 <= |s.players| <= 4
    && HasTurn(s)
    && (forall i :: 0 <= i < |s.players| ==> InBounds(s.players[i].pos))
    && (forall i, j :: 0 <= i < j < |s.players| ==> s.players[i].pos != s.players[j].pos)
    && (forall i :: 0 <= i < |s.players| ==>
          0 <= s.players[i].wallsLeft && s.players[i].wallsLeft + |s.players[i].placed| == StartWalls[i])
    && (forall i :: 0 <= i < |s.players| ==> (AtGoal(s.players[i]) <==> s.gameOver && s.winner == Some(i)))
    && (s.gameOver <==> s.winner.Some?)
    && (s.gameOver ==> s.winner == Some(s.current))
  }

  /** The state of a fresh match with `numPlayers` players. */
  function Initial(numPlayers: int): (s: State)
    requires 1 <= numPlayers <= 4
    ensures Valid(s)
    ensures |s.players| == numPlayers && s.current == 0 && !s.gameOver && s.walls == NoWalls
    ensures forall i :: 0 <= i < numPlayers ==>
      s.players[i].placed == [] && !AtGoal(s.players[i]) && s.players[i].wallsLeft == (if i < 2 then 10 else 5)
    ensures s.players[0].pos == (N - 1, N / 2) && s.players[0].goal == GoalRow(0)
    ensures numPlayers >= 2 ==> s.players[1].pos == (0, N / 2) && s.players[1].goal == GoalRow(N - 1)
    ensures numPlayers >= 3 ==> s.players[2].pos == (N / 2, 0) && s.players[2].goal == GoalCol(N - 1)
    ensures numPlayers >= 4 ==> s.players[3].pos == (N / 2, N - 1) && s.players[3].goal == GoalCol(0)
  {
    State(
      seq(numPlayers, i requires 0 <= i < numPlayers => Player(StartCells[i], StartGoals[i], StartWalls[i], [])),
      NoWalls,
      0,
      false,
      None)
  }
}
