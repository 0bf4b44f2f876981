/** Turn and state transitions: moving the pawn, wall legality, placing a
    wall, and passing the turn. Each transition either commits in full or
    leaves the state as it was. */
module Rules {
  import opened Board
  import opened Walls
  import opened Paths
  import opened Search
  import opened GameState
  import opened Moves

  /** The result of a transition attempt and the state after it. */
  datatype Outcome = Outcome(accepted: bool, state: State)

  /** Every player can still reach its goal (trivially so when on it). */
  ghost predicate PathsOpen(s: State) {
    forall i :: 0 <= i < |s.players| ==> CanReachGoal(s.walls, s.players[i].pos, s.players[i].goal)
  }

  // ---------------------------------------------------------------- turns

  /** Pass the turn to the next player, unless the game is over. */
  function NextTurn(s: State): (t: State)
    requires HasTurn(s)
    ensures HasTurn(t) && t.players == s.players && t.walls == s.walls
    ensures t.gameOver == s.gameOver && t.winner == s.winner
    ensures !s.gameOver ==> t.current == (s.current + 1) % |s.players|
    ensures s.gameOver ==> t == s
  {
    if s.gameOver then s else s.(current := (s.current + 1) % |s.players|)
  }

  /** `k` successive turn changes. */
  function AdvanceTurns(s: State, k: nat): (t: State)
    requires HasTurn(s)
    ensures HasTurn(t)
    decreases k
  {
    if k == 0 then s else AdvanceTurns(NextTurn(s), k - 1)
  }

  lemma {:induction false} MulAtLeast(d: int, n: int)
    requires d >= 1 && n >= 0
    ensures d * n >= n
    decreases d
  {
    if d > 1 {
      MulAtLeast(d - 1, n);
      assert d * n == (d - 1) * n + n;
    }
  }

  lemma MulAtMost(d: int, n: int)
    requires d <= -1 && n >= 0
    ensures d * n <= -n
  {
    MulAtLeast(-d, n);
    assert (-d) * n == -(d * n);
  }

  /** Euclidean remainder is determined by any quotient/remainder split. */
  lemma ModUnique(a: int, n: int, q: int, m: int)
    requires n > 0 && 0 <= m < n && a == q * n + m
    ensures a % n == m
  {
    var q0, m0 := a / n, a % n;
    assert a == q0 * n + m0;
    var d := q0 - q;
    assert d * n == m - m0;
    if d >= 1 {
      MulAtLeast(d, n);
    } else if d <= -1 {
      MulAtMost(d, n);
    }
  }

  lemma ModAddLeft(a: nat, b: nat, n: int)
    requires n > 0
    ensures (a % n + b) % n == (a + b) % n
  {
    var x := a % n + b;
    var q, m := x / n, x % n;
    assert x == q * n + m;
    assert a + b == (a / n + q) * n + m;
    ModUnique(a + b, n, a / n + q, m);
  }

  /** Turns rotate through the players in index order: after `k` turn
      changes the player to move is `(current + k) mod numPlayers`, and
      nothing else has changed. */
  lemma {:induction false} TurnsCycle(s: State, k: nat)
    requires HasTurn(s) && !s.gameOver
    ensures AdvanceTurns(s, k).current == (s.current + k) % |s.players|
    ensures AdvanceTurns(s, k).players == s.players && AdvanceTurns(s, k).walls == s.walls
    decreases k
  {
    if k > 0 {
      var t := NextTurn(s);
      TurnsCycle(t, k - 1);
      ModAddLeft(s.current + 1, k - 1, |s.players|);
      assert t.current == (s.current + 1) % |s.players|;
    } else {
      assert s.current % |s.players| == s.current;
    }
  }

  // ---------------------------------------------------------------- moves

  /** Move the player to move onto (r, c). A destination the generator does
      not offer is refused and nothing changes. Otherwise the pawn moves; if
      it lands on its goal the game ends with that player as winner and the
      turn stays put, else the turn passes on. */
  function MovePlayer(s: State, r: int, c: int): (out: Outcome)
    requires HasTurn(s) && !s.gameOver
    ensures out.accepted <==> LegalDestination(s, (r, c))
    ensures !out.accepted ==> out.state == s
    ensures out.accepted ==>
      && out.state.players == s.players[s.current := s.players[s.current].(pos := (r, c))]
      && out.state.walls == s.walls
    ensures out.accepted && Reached(s.players[s.current].goal, (r, c)) ==>
      out.state.gameOver && out.state.winner == Some(s.current) && out.state.current == s.current
    ensures out.accepted && !Reached(s.players[s.current].goal, (r, c)) ==>
      && !out.state.gameOver && out.state.winner == s.winner
      && out.state.current == (s.current + 1) % |s.players|
  {
    if (r, c) !in PossibleMoves(s) then Outcome(false, s)
    else
      var moved := s.(players := s.players[s.current := s.players[s.current].(pos := (r, c))]);
      if AtGoal(moved.players[s.current]) then Outcome(true, moved.(gameOver := true, winner := Some(s.current)))
      else Outcome(true, NextTurn(moved))
  }

  // ---------------------------------------------------------------- walls

  /** A wall is legal when its anchor is an inner intersection, neither unit
      is taken, the crossing test passes, and with its two units added every
      player not yet on its goal can still reach it. */
  ghost predicate WallLegal(s: State, o: Orientation, r: int, c: int) {
    && AnchorInBounds(r, c)
    && !s.walls.Overlaps(o, r, c)
    && !s.walls.Crosses(o, r, c)
    && forall p :: 0 <= p < |s.players| && !AtGoal(s.players[p]) ==>
         CanReachGoal(s.walls.With(o, r, c), s.players[p].pos, s.players[p].goal)
  }

  /** The legality check, in the engine's order: anchor bounds, overlap,
      crossing, then one path search per player not on its goal against
      the trial wall set. The state is taken by value, so the live walls are
      never touched. */
  method IsValidWallPlacement(s: State, o: Orientation, r: int, c: int) returns (valid: bool)
    ensures valid <==> WallLegal(s, o, r, c)
    ensures !AnchorInBounds(r, c) ==> !valid
    ensures s.walls.Overlaps(o, r, c) || s.walls.Crosses(o, r, c) ==> !valid
    ensures valid ==> forall p :: 0 <= p < |s.players| && !AtGoal(s.players[p]) ==>
      CanReachGoal(s.walls.With(o, r, c), s.players[p].pos, s.players[p].goal)
  {
    if !AnchorInBounds(r, c) {
      return false;
    }
    if s.walls.Overlaps(o, r, c) {
      return false;
    }
    if s.walls.Crosses(o, r, c) {
      return false;
    }
    var trial := s.walls.With(o, r, c);
    var p := 0;
    while p < |s.players|
      invariant 0 <= p <= |s.players|
      invariant forall q :: 0 <= q < p && !AtGoal(s.players[q]) ==>
        CanReachGoal(trial, s.players[q].pos, s.players[q].goal)
    {
      if !AtGoal(s.players[p]) {
        var found, _ := FindPathToGoal(trial, s.players[p].pos, s.players[p].goal);
        if !found {
          return false;
        }
      }
      p := p + 1;
    }
    return true;
  }

  /** Commit a wall for the player to move: add its two units, take one wall
      from that player's inventory, record it in that player's list, and pass
      the turn. */
  function CommitWall(s: State, o: Orientation, r: int, c: int): (t: State)
    requires HasTurn(s) && !s.gameOver
    ensures CommitEffect(s, o, r, c, t)
  {
    var me := s.players[s.current];
    var me' := me.(wallsLeft := me.wallsLeft - 1, placed := me.placed + [PlacedWall(o, r, c)]);
    NextTurn(s.(walls := s.walls.With(o, r, c), players := s.players[s.current := me']))
  }

  /** What committing a wall changes: exactly the wall's two units are
      added, only the mover's inventory drops by one and its list gains the
      wall, pawns stay put, and the turn passes. */
  predicate CommitEffect(s: State, o: Orientation, r: int, c: int, t: State)
    requires HasTurn(s)
  {
    && t.walls == s.walls.With(o, r, c)
    && |t.players| == |s.players|
    && t.players[s.current].pos == s.players[s.current].pos
    && t.players[s.current].goal == s.players[s.current].goal
    && t.players[s.current].wallsLeft == s.players[s.current].wallsLeft - 1
    && t.players[s.current].placed == s.players[s.current].placed + [PlacedWall(o, r, c)]
    && (forall i :: 0 <= i < |s.players| && i != s.current ==> t.players[i] == s.players[i])
    && t.current == (s.current + 1) % |s.players|
    && t.gameOver == s.gameOver && t.winner == s.winner
  }

  /** The state a wall attempt leaves behind: committed when the player to
      move has a wall left and the wall is legal, unchanged otherwise. */
  ghost function WallAttempt(s: State, o: Orientation, r: int, c: int): State
    requires HasTurn(s) && !s.gameOver
  {
    if s.players[s.current].wallsLeft > 0 && WallLegal(s, o, r, c) then CommitWall(s, o, r, c) else s
  }

  /** Committing a legal wall keeps every player's goal reachable. */
  lemma CommitKeepsPathsOpen(s: State, o: Orientation, r: int, c: int)
    requires HasTurn(s) && !s.gameOver && WallLegal(s, o, r, c)
    ensures PathsOpen(CommitWall(s, o, r, c))
  {
    var t := CommitWall(s, o, r, c);
    forall i | 0 <= i < |t.players|
      ensures CanReachGoal(t.walls, t.players[i].pos, t.players[i].goal)
    {
      assert t.players[i].pos == s.players[i].pos && t.players[i].goal == s.players[i].goal;
      if AtGoal(s.players[i]) {
        AtGoalCanReach(t.walls, t.players[i].pos, t.players[i].goal);
      }
    }
  }

  /** Committing a wall from a non-empty inventory keeps the state valid. */
  lemma CommitKeepsValid(s: State, o: Orientation, r: int, c: int)
    requires Valid(s) && !s.gameOver && s.players[s.current].wallsLeft > 0
    ensures Valid(CommitWall(s, o, r, c))
  {
    var t := CommitWall(s, o, r, c);
    forall i | 0 <= i < |t.players|
      ensures !AtGoal(t.players[i])
    {
      assert t.players[i].pos == s.players[i].pos && t.players[i].goal == s.players[i].goal;
    }
  }

  /** Place a wall for the player to move. It is refused, with nothing
      changed, when that player has no walls left or the wall is not legal.
      Otherwise exactly the wall's two units are added, only that player's
      inventory drops by one and its list gains the wall, and the turn
      passes. An accepted wall never cuts any player off from its goal. */
  method PlaceWall(s: State, o: Orientation, r: int, c: int) returns (out: Outcome)
    requires HasTurn(s) && !s.gameOver
    ensures out.accepted <==> s.players[s.current].wallsLeft > 0 && WallLegal(s, o, r, c)
    ensures !out.accepted ==> out.state == s
    ensures out.state == WallAttempt(s, o, r, c)
    ensures out.accepted ==> CommitEffect(s, o, r, c, out.state)
    ensures out.accepted ==> PathsOpen(out.state)
    ensures Valid(s) ==> Valid(out.state)
  {
    if s.players[s.current].wallsLeft <= 0 {
      return Outcome(false, s);
    }
    var valid := IsValidWallPlacement(s, o, r, c);
    if !valid {
      return Outcome(false, s);
    }
    var t := CommitWall(s, o, r, c);
    CommitKeepsPathsOpen(s, o, r, c);
    if Valid(s) {
      CommitKeepsValid(s, o, r, c);
    }
    assert t == WallAttempt(s, o, r, c);
    return Outcome(true, t);
  }
}
