/** The engine's breadth-first path search, proved to decide `CanReachGoal`. */
module Search {
  import opened Board
  import opened Walls
  import opened Paths

  lemma {:induction false} SubsetNotLarger(a: set<Cell>, b: set<Cell>)
    requires a <= b
    ensures |a| <= |b|
    decreases a
  {
    if a != {} {
      var x :| x in a;
      SubsetNotLarger(a - {x}, b - {x});
    }
  }

  lemma ProperSubsetSmaller(a: set<Cell>, b: set<Cell>)
    requires a < b
    ensures |a| < |b|
  {
    var e :| e in b && e !in a;
    SubsetNotLarger(a, b - {e});
  }

  predicate Distinct(q: seq<Cell>) {
    forall a, b :: 0 <= a < b < |q| ==> q[a] != q[b]
  }

  /** What one expansion of `cur` does to the queue and the visited set:
      exactly the open neighbours of `cur` not visited before are added to
      the visited set and appended, each once, to the queue. */
  ghost predicate Expanded(w: WallSet, cur: Cell, queue: seq<Cell>, visited: set<Cell>,
                           queue': seq<Cell>, visited': set<Cell>) {
    && visited <= visited'
    && (forall y :: OpenStep(w, cur, y) ==> y in visited')
    && (forall y :: y in visited' && y !in visited ==> OpenStep(w, cur, y))
    && |queue| <= |queue'| && queue'[..|queue|] == queue
    && (forall k :: |queue| <= k < |queue'| ==> queue'[k] in visited' && queue'[k] !in visited)
    && (forall y :: y in visited' && y !in visited ==> y in queue'[|queue|..])
    && (forall a, b :: |queue| <= a < b < |queue'| ==> queue'[a] != queue'[b])
    && |visited'| == |visited| + (|queue'| - |queue|)
  }

  /** One expansion step of the search: every open neighbour of `cur` not yet
      visited is marked visited and appended to the queue, in the order up,
      down, left, right. */
  method EnqueueNeighbours(w: WallSet, cur: Cell, queue: seq<Cell>, visited: set<Cell>)
    returns (queue': seq<Cell>, visited': set<Cell>)
    ensures Expanded(w, cur, queue, visited, queue', visited')
  {
    queue', visited' := queue, visited;
    var i := 0;
    while i < 4
      invariant 0 <= i <= 4
      invariant visited <= visited'
      invariant forall j :: 0 <= j < i && InBounds(Shift(cur, Directions[j])) && !w.Blocks(cur, Directions[j])
                  ==> Shift(cur, Directions[j]) in visited'
      invariant forall y :: y in visited' && y !in visited ==> OpenStep(w, cur, y)
      invariant |queue| <= |queue'| && queue'[..|queue|] == queue
      invariant forall k :: |queue| <= k < |queue'| ==> queue'[k] in visited' && queue'[k] !in visited
      invariant forall y :: y in visited' && y !in visited ==> y in queue'[|queue|..]
      invariant forall a, b :: |queue| <= a < b < |queue'| ==> queue'[a] != queue'[b]
      invariant |visited'| == |visited| + (|queue'| - |queue|)
    {
      var d := Directions[i];
      var next := Shift(cur, d);
      if InBounds(next) && !w.Blocks(cur, d) && next !in visited' {
        assert (queue' + [next])[|queue|..] == queue'[|queue|..] + [next];
        queue' := queue' + [next];
        visited' := visited' + {next};
      }
      i := i + 1;
    }
  }

  /** The search invariant: every visited cell is reachable from the start,
      every queued cell is visited, and every visited cell already dequeued
      is off the goal with all its open neighbours visited. */
  ghost predicate SearchInv(w: WallSet, start: Cell, goal: Goal, queue: seq<Cell>, visited: set<Cell>) {
    && start in visited
    && (forall x :: x in queue ==> x in visited)
    && (forall x :: x in visited ==> Reachable(w, start, x))
    && (forall x :: x in visited && x !in queue ==> !Reached(goal, x))
    && (forall x, y :: x in visited && x !in queue && OpenStep(w, x, y) ==> y in visited)
    && (InBounds(start) ==> visited <= BoardCells())
    && Distinct(queue)
  }

  /** Dequeuing a cell off the goal and expanding it keeps the invariant,
      grows the visited set by exactly the cells appended, and makes progress:
      either fresh board cells are visited or the queue shrinks. */
  lemma SearchStep(w: WallSet, start: Cell, goal: Goal, queue: seq<Cell>, visited: set<Cell>,
                   queue': seq<Cell>, visited': set<Cell>)
    requires |queue| > 0 && SearchInv(w, start, goal, queue, visited)
    requires !Reached(goal, queue[0])
    requires Expanded(w, queue[0], queue[1..], visited, queue', visited')
    ensures SearchInv(w, start, goal, queue', visited')
    ensures |visited'| - |visited| == |queue'| - (|queue| - 1)
    ensures visited' == visited || BoardCells() - visited' < BoardCells() - visited
  {
    var cur, rest := queue[0], queue[1..];
    assert cur !in rest;
    forall y | y in visited' && y !in visited
      ensures Reachable(w, start, y) && y in BoardCells()
    {
      ReachableStep(w, start, cur, y);
      InBoundsIsBoardCell(y);
    }
    assert forall k :: 0 <= k < |rest| ==> queue'[k] == rest[k];
    forall x | x in visited' && x !in queue'
      ensures !Reached(goal, x)
    {
      if x != cur {
        assert x in visited;
        assert x !in queue;
      }
    }
    assert Distinct(queue');
  }

  /** Breadth-first search from `start` over open steps, stopping at the first
      dequeued cell on the goal. `found` is exactly reachability of the goal;
      `visits` counts dequeued cells, and since each cell enters the queue at
      most once it never exceeds the number of board cells. */
  method FindPathToGoal(w: WallSet, start: Cell, goal: Goal) returns (found: bool, visits: nat)
    ensures found <==> CanReachGoal(w, start, goal)
    ensures InBounds(start) ==> visits <= N * N
  {
    var queue := [start];
    var visited := {start};
    visits := 0;
    ReachableRefl(w, start);
    BoardCellsCount();
    InBoundsIsBoardCell(start);
    assert SearchInv(w, start, goal, queue, visited);
    while |queue| > 0
      invariant SearchInv(w, start, goal, queue, visited)
      invariant visits + |queue| == |visited|
      decreases |BoardCells() - visited|, |queue|
    {
      var cur := queue[0];
      visits := visits + 1;
      if Reached(goal, cur) {
        AtGoalCanReach(w, cur, goal);
        ReachThenGoal(w, start, cur, goal);
        found := true;
        return;
      }
      var queue', visited' := EnqueueNeighbours(w, cur, queue[1..], visited);
      SearchStep(w, start, goal, queue, visited, queue', visited');
      assert visits + |queue'| == |visited'|;
      if visited' != visited {
        ProperSubsetSmaller(BoardCells() - visited', BoardCells() - visited);
      } else {
        assert |queue'| < |queue|;
      }
      queue, visited := queue', visited';
    }
    found := false;
    ExhaustedSearch(w, start, goal, visited);
  }

  /** With the queue empty, the visited set is closed under open steps and
      holds no goal cell, so no goal cell is reachable. */
  lemma ExhaustedSearch(w: WallSet, start: Cell, goal: Goal, visited: set<Cell>)
    requires SearchInv(w, start, goal, [], visited)
    ensures !CanReachGoal(w, start, goal)
  {
    if CanReachGoal(w, start, goal) {
      var p :| IsWalk(w, p) && p[0] == start && Reached(goal, p[|p| - 1]);
      ClosedSetTrapsWalks(w, visited, p);
      assert false;
    }
  }
}
