/** Reachability on the board: the open-step relation the path search
    explores, walks made of open steps, and the facts about them the search
    and the game invariants rely on. Pawns never block a walk. */
module Paths {
  import opened Board
  import opened Walls

  /** One open step from `a` to `b`: `b` is the up, down, left or right
      neighbour of `a`, it is on the board and no unit blocks the step. */
  predicate OpenStep(w: WallSet, a: Cell, b: Cell) {
    && InBounds(b)
    && (|| (b == Shift(a, Directions[0]) && !w.Blocks(a, Directions[0]))
        || (b == Shift(a, Directions[1]) && !w.Blocks(a, Directions[1]))
        || (b == Shift(a, Directions[2]) && !w.Blocks(a, Directions[2]))
        || (b == Shift(a, Directions[3]) && !w.Blocks(a, Directions[3])))
  }

  /** A non-empty sequence of cells, each an open step from the previous one. */
  ghost predicate IsWalk(w: WallSet, p: seq<Cell>) {
    |p| >= 1 && forall k :: 0 <= k < |p| - 1 ==> OpenStep(w, p[k], p[k + 1])
  }

  ghost predicate Reachable(w: WallSet, a: Cell, b: Cell) {
    exists p :: IsWalk(w, p) && p[0] == a && p[|p| - 1] == b
  }

  /** Some cell satisfying `goal` is reachable from `a`. */
  ghost predicate CanReachGoal(w: WallSet, a: Cell, goal: Goal) {
    exists p :: IsWalk(w, p) && p[0] == a && Reached(goal, p[|p| - 1])
  }

  lemma ReachableRefl(w: WallSet, a: Cell)
    ensures Reachable(w, a, a)
  {
    assert IsWalk(w, [a]);
  }

  /** A cell already on its goal can reach it. */
  lemma AtGoalCanReach(w: WallSet, a: Cell, goal: Goal)
    requires Reached(goal, a)
    ensures CanReachGoal(w, a, goal)
  {
    assert IsWalk(w, [a]);
  }

  lemma ReachableStep(w: WallSet, a: Cell, b: Cell, c: Cell)
    requires Reachable(w, a, b) && OpenStep(w, b, c)
    ensures Reachable(w, a, c)
  {
    var p :| IsWalk(w, p) && p[0] == a && p[|p| - 1] == b;
    var q := p + [c];
    forall k | 0 <= k < |q| - 1
      ensures OpenStep(w, q[k], q[k + 1])
    {
      if k < |p| - 1 {
        assert q[k] == p[k] && q[k + 1] == p[k + 1];
      }
    }
    assert IsWalk(w, q);
  }

  /** Walks concatenate: a walk to `b` followed by a walk from `b` to the goal. */
  lemma ReachThenGoal(w: WallSet, a: Cell, b: Cell, goal: Goal)
    requires Reachable(w, a, b) && CanReachGoal(w, b, goal)
    ensures CanReachGoal(w, a, goal)
  {
    var p :| IsWalk(w, p) && p[0] == a && p[|p| - 1] == b;
    var q :| IsWalk(w, q) && q[0] == b && Reached(goal, q[|q| - 1]);
    var r := p + q[1..];
    assert |r| == |p| + |q| - 1;
    forall k | 0 <= k < |r| - 1
      ensures OpenStep(w, r[k], r[k + 1])
    {
      if k < |p| - 1 {
        assert r[k] == p[k] && r[k + 1] == p[k + 1];
      } else {
        var j := k - (|p| - 1);
        assert r[k] == q[j] && r[k + 1] == q[j + 1];
      }
    }
    assert r[|r| - 1] == q[|q| - 1];
    assert IsWalk(w, r);
  }

  /** An open step can be walked back: both directions consult the same unit. */
  lemma OpenStepSymmetric(w: WallSet, a: Cell, b: Cell)
    requires InBounds(a) && OpenStep(w, a, b)
    ensures OpenStep(w, b, a)
  {
  }

  /** Every cell of a walk after the first is on the board. */
  lemma WalkInBounds(w: WallSet, p: seq<Cell>, k: int)
    requires IsWalk(w, p) && 0 < k < |p|
    ensures InBounds(p[k])
  {
    assert OpenStep(w, p[k - 1], p[k]);
  }

  /** Reachability is symmetric for a starting cell on the board. */
  lemma ReachableSymmetric(w: WallSet, a: Cell, b: Cell)
    requires InBounds(a) && Reachable(w, a, b)
    ensures Reachable(w, b, a)
  {
    var p :| IsWalk(w, p) && p[0] == a && p[|p| - 1] == b;
    var n := |p|;
    var q := seq(n, k requires 0 <= k < n => p[n - 1 - k]);
    forall k | 0 <= k < n - 1
      ensures OpenStep(w, q[k], q[k + 1])
    {
      var j := n - 2 - k;
      assert q[k] == p[j + 1] && q[k + 1] == p[j];
      assert OpenStep(w, p[j], p[j + 1]);
      if j > 0 {
        WalkInBounds(w, p, j);
      }
      OpenStepSymmetric(w, p[j], p[j + 1]);
    }
    assert IsWalk(w, q);
  }

  /** A set closed under open steps traps every walk that starts inside it. */
  lemma {:induction false} ClosedSetTrapsWalks(w: WallSet, s: set<Cell>, p: seq<Cell>)
    requires IsWalk(w, p) && p[0] in s
    requires forall x, y :: x in s && OpenStep(w, x, y) ==> y in s
    ensures p[|p| - 1] in s
    decreases |p|
  {
    if |p| > 1 {
      var prefix := p[..|p| - 1];
      forall k | 0 <= k < |prefix| - 1
        ensures OpenStep(w, prefix[k], prefix[k + 1])
      {
        assert prefix[k] == p[k] && prefix[k + 1] == p[k + 1];
      }
      assert IsWalk(w, prefix);
      ClosedSetTrapsWalks(w, s, prefix);
      assert OpenStep(w, p[|p| - 2], p[|p| - 1]);
    }
  }

  /** On a board without walls, any two board cells are connected. */
  lemma {:induction false} EmptyBoardConnected(a: Cell, b: Cell)
    requires InBounds(a) && InBounds(b)
    ensures Reachable(NoWalls, b, a)
    decreases (if a.0 < b.0 then b.0 - a.0 else a.0 - b.0) + (if a.1 < b.1 then b.1 - a.1 else a.1 - b.1)
  {
    if a == b {
      ReachableRefl(NoWalls, b);
    } else {
      var prev :=
        if a.0 > b.0 then Shift(a, Directions[0])
        else if a.0 < b.0 then Shift(a, Directions[1])
        else if a.1 > b.1 then Shift(a, Directions[2])
        else Shift(a, Directions[3]);
      EmptyBoardConnected(prev, b);
      assert OpenStep(NoWalls, prev, a);
      ReachableStep(NoWalls, b, prev, a);
    }
  }
}
