/** Invariants of a match: pawns stay on distinct board cells, inventories
    are conserved, the winner is exactly the player on its goal, and no
    sequence of accepted moves and walls ever cuts a player off. */
module Invariants {
  import opened Board
  import opened Walls
  import opened Paths
  import opened GameState
  import opened Moves
  import opened Rules

  /** A fresh match leaves every player a path to its goal. */
  lemma InitialPathsOpen(numPlayers: int)
    requires 1 <= numPlayers <= 4
    ensures PathsOpen(Initial(numPlayers))
  {
    var s := Initial(numPlayers);
    forall i | 0 <= i < numPlayers
      ensures CanReachGoal(s.walls, s.players[i].pos, s.players[i].goal)
    {
      var p := s.players[i];
      var target := match p.goal
        case GoalRow(row) => (row, p.pos.1)
        case GoalCol(col) => (p.pos.0, col);
      EmptyBoardConnected(target, p.pos);
      AtGoalCanReach(s.walls, target, p.goal);
      ReachThenGoal(s.walls, p.pos, target, p.goal);
    }
  }

  /** An accepted move keeps the state valid: the pawn lands on a free board
      cell, and it ends the game exactly when it lands on its goal. */
  lemma MoveKeepsValid(s: State, r: int, c: int)
    requires Valid(s) && !s.gameOver
    ensures Valid(MovePlayer(s, r, c).state)
  {
    var out := MovePlayer(s, r, c);
    if out.accepted {
      assert !Occupied(s.players, (r, c));
      var t := out.state;
      forall i, j | 0 <= i < j < |t.players|
        ensures t.players[i].pos != t.players[j].pos
      {
        if i == s.current {
          assert s.players[j].pos != (r, c);
        } else if j == s.current {
          assert s.players[i].pos != (r, c);
        }
      }
      forall i | 0 <= i < |t.players|
        ensures AtGoal(t.players[i]) <==> t.gameOver && t.winner == Some(i)
      {
        if i != s.current {
          assert t.players[i] == s.players[i];
        }
      }
    }
  }

  /** The cell a legal move lands on can walk back to where the pawn stood:
      a step is one open step, a jump two. */
  lemma MoveIsReversible(s: State, m: Cell)
    requires HasTurn(s) && InBounds(s.players[s.current].pos) && LegalDestination(s, m)
    ensures Reachable(s.walls, m, s.players[s.current].pos)
  {
    var w := s.walls;
    var from := s.players[s.current].pos;
    var i :| 0 <= i < 4 && (StepTo(s, from, Directions[i], m) || JumpTo(s, from, Directions[i], m));
    var next := Shift(from, Directions[i]);
    ReachableRefl(w, from);
    assert OpenStep(w, from, next);
    ReachableStep(w, from, from, next);
    if JumpTo(s, from, Directions[i], m) {
      assert OpenStep(w, next, m);
      ReachableStep(w, from, next, m);
    }
    ReachableSymmetric(w, from, m);
  }

  /** An accepted move keeps every player's goal reachable: walls are
      unchanged, and the mover can walk back to its old cell. */
  lemma MoveKeepsPathsOpen(s: State, r: int, c: int)
    requires Valid(s) && !s.gameOver && PathsOpen(s)
    ensures PathsOpen(MovePlayer(s, r, c).state)
  {
    var out := MovePlayer(s, r, c);
    if out.accepted {
      var t := out.state;
      MoveIsReversible(s, (r, c));
      ReachThenGoal(s.walls, (r, c), s.players[s.current].pos, s.players[s.current].goal);
      forall i | 0 <= i < |t.players|
        ensures CanReachGoal(t.walls, t.players[i].pos, t.players[i].goal)
      {
        if i != s.current {
          assert t.players[i] == s.players[i];
        }
      }
    }
  }

  // ------------------------------------------------------------ whole matches

  /** A player input: a click on a cell, or on a wall anchor. */
  datatype Action = MoveTo(r: int, c: int) | PlaceAt(o: Orientation, r: int, c: int)

  /** One input handled as the event loop does: ignored once the game is over. */
  ghost function Play(s: State, a: Action): (t: State)
    requires HasTurn(s)
    ensures HasTurn(t)
  {
    if s.gameOver then s
    else match a
      case MoveTo(r, c) => MovePlayer(s, r, c).state
      case PlaceAt(o, r, c) => WallAttempt(s, o, r, c)
  }

  ghost function Run(s: State, actions: seq<Action>): (t: State)
    requires HasTurn(s)
    ensures HasTurn(t)
    decreases |actions|
  {
    if |actions| == 0 then s else Run(Play(s, actions[0]), actions[1..])
  }

  /** Every input keeps the match invariant. */
  lemma PlayKeepsInvariant(s: State, a: Action)
    requires Valid(s) && PathsOpen(s)
    ensures Valid(Play(s, a)) && PathsOpen(Play(s, a))
  {
    if !s.gameOver {
      match a
      case MoveTo(r, c) =>
        MoveKeepsValid(s, r, c);
        MoveKeepsPathsOpen(s, r, c);
      case PlaceAt(o, r, c) =>
        if s.players[s.current].wallsLeft > 0 && WallLegal(s, o, r, c) {
          CommitKeepsValid(s, o, r, c);
          CommitKeepsPathsOpen(s, o, r, c);
        }
    }
  }

  /** Whatever the players do, every state of a match has its pawns on
      distinct board cells, conserves each player's wall inventory, names as
      winner exactly the player on its goal, and leaves every player a path
      to its goal. */
  lemma {:induction false} RulesKeepInvariant(numPlayers: int, actions: seq<Action>)
    requires 1 <= numPlayers <= 4
    ensures Valid(Run(Initial(numPlayers), actions))
    ensures PathsOpen(Run(Initial(numPlayers), actions))
  {
    InitialPathsOpen(numPlayers);
    RunKeepsInvariant(Initial(numPlayers), actions);
  }

  lemma {:induction false} RunKeepsInvariant(s: State, actions: seq<Action>)
    requires Valid(s) && PathsOpen(s)
    ensures Valid(Run(s, actions)) && PathsOpen(Run(s, actions))
    decreases |actions|
  {
    if |actions| > 0 {
      PlayKeepsInvariant(s, actions[0]);
      RunKeepsInvariant(Play(s, actions[0]), actions[1..]);
    }
  }
}
