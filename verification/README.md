# Quoridor rules engine in Dafny

This project models the rules engine of a Quoridor game for two to four players
on a 9x9 board. Each player races a pawn to an assigned goal row or goal column,
and players can spend their turn placing two-cell walls instead. The model
covers five parts:

- the starting layout;
- legal-move generation, including jumps over an adjacent pawn;
- the breadth-first path search;
- wall legality, which refuses any wall that would cut a player off from its goal;
- the transitions that move a pawn, place a wall and pass the turn.

Rendering and input handling are not modelled.

The model is functional. A match is an immutable `GameState.State` value:

- the players, each with a pawn cell, a goal, a wall inventory and a list of placed walls;
- a `Walls.WallSet`, which holds one set of blocker units per orientation;
- the index of the player to move, the game-over flag and the winner.

The layout of the files:

| file | module | contents |
|---|---|---|
| `board.dfy` | `Board` | board size, cells, the four directions, goals |
| `walls.dfy` | `Walls` | blocker units, the per-step wall check, overlap and crossing tests, trial wall sets |
| `paths.dfy` | `Paths` | open steps, walks, `Reachable`, `CanReachGoal` and their algebra |
| `search.dfy` | `Search` | the BFS, proved to decide `CanReachGoal` |
| `state.dfy` | `GameState` | players, state, the match invariant `Valid`, the starting layout |
| `moves.dfy` | `Moves` | move generation and a rule-by-rule reference definition of a legal destination |
| `rules.dfy` | `Rules` | `MovePlayer`, `IsValidWallPlacement`, `PlaceWall`, `NextTurn` |
| `invariants.dfy` | `Invariants` | preservation of the match invariants over any sequence of inputs |

Some conventions:

- A horizontal unit `(r, c)` blocks the step between `(r, c)` and `(r + 1, c)`.
- A vertical unit `(r, c)` blocks the step between `(r, c)` and `(r, c + 1)`.
- A wall anchored at `(r, c)` adds two units: `(r, c)` and `(r, c + 1)` if horizontal, `(r, c)` and `(r + 1, c)` if vertical.
- Reachability is a ghost predicate: there is a walk of open steps. Pawns never block a walk.
- `Search.FindPathToGoal` is the executable search. Its postcondition says it returns exactly that predicate.

Behaviour of the code that the model keeps as written:

- **Jump fallback.** When a straight jump would leave the board, the code tries side offsets `(dr ± 1, dc)` / `(dr, dc ± 1)`. These are not the directions perpendicular to the jump, and the model keeps them. `Moves.FallbackIsEmpty` proves that for the four directions these offsets never yield a move. One offset is `(0, 0)` and lands on the jumped pawn. The other lands two cells beyond the edge. So the only moves are plain steps and straight jumps, as the contract of `Moves.PossibleMoves` states.
- **Crossing test.** The test is the literal two-unit check. `Walls.StackedWallsRefuseCrossing` shows it also refuses a horizontal wall that lies between two stacked vertical walls.
- **Error kinds.** The engine reports only accept or refuse, as a boolean plus a message. There is no typed error. The model returns `Outcome(accepted, state)`.
- **Game over.** Moves and walls after game over are stopped only by the event loop. The model makes `!s.gameOver` a precondition of `MovePlayer` and `PlaceWall`. `Invariants.Play` ignores input once the game is over.

## Model

| member | source | states |
|---|---|---|
| `GameState.Initial` | maze.py:75-103 | The first `numPlayers` (1..4) of these players are kept: player 0 at `(N-1, N/2)` aiming for row 0; player 1 at `(0, N/2)` aiming for row `N-1`; player 2 at `(N/2, 0)` aiming for column `N-1`; player 3 at `(N/2, N-1)` aiming for column 0. Their inventories are 10/10/5/5. The result satisfies the match invariant `Valid`: pawns are distinct and on the board, and nobody is on its goal. Walls are empty, player 0 moves first, and the game is not over. |
| `Invariants.InitialPathsOpen` | maze.py:75-97 | In a fresh match every player has a walk to its goal row or column. |
| `Moves.PossibleMoves` | maze.py:113-181 | A cell is generated if and only if it satisfies the rule-by-rule reference definition `LegalDestination`: a plain step onto a free, unblocked neighbour, or a straight jump over an adjacent pawn. Every generated destination is on the board and free, so an occupied neighbour is never returned. |
| `Moves.FallbackIsEmpty` | maze.py:145-161 | The off-board jump fallback, with its side offsets as coded, contributes no destination in any of the four directions. |
| `Moves.DirectionMoves` | maze.py:121-179 | A cell is contributed by one direction exactly when it is an unblocked, free neighbour in that direction, or the free landing cell of an unblocked straight jump over a pawn in that direction. |
| `Moves.NeighbourMove` | maze.py:121-179 | A free, in-bounds neighbour is generated exactly when its blocker unit is absent: horizontal `(r-1,c)` up, `(r,c)` down, vertical `(r,c-1)` left, `(r,c)` right. |
| `Moves.JumpMove` | maze.py:138-177 | With a pawn on the neighbour and the cell beyond it on the board, that cell is generated exactly when neither half-step is blocked and it is free. |
| `Moves.JumpExample` | maze.py:138-177 | With pawns at (4,4) and (3,4) and no walls, the mover may jump to (2,4) and may not step to (3,4). |
| `Walls.WallBlocksItsSteps` | maze.py:284-291 | Adding a wall keeps every existing block and blocks both steps it spans, in both directions of travel. |
| `Walls.CrossingCaught` | maze.py:246-249 | A perpendicular wall at the same anchor always fails the crossing test. |
| `Walls.StackedWallsRefuseCrossing` | maze.py:246-249 | The literal crossing test also refuses a horizontal wall at (r,c) between vertical walls at (r-1,c) and (r+1,c), which do not overlap it. |
| `Paths.OpenStepSymmetric` | maze.py:210-222 | An open step can be walked back, because both directions consult the same blocker unit. |
| `Paths.ClosedSetTrapsWalks` | maze.py:196-229 | A cell set closed under open steps contains the end of every walk that starts in it. This is the completeness argument of the search. |
| `Search.EnqueueNeighbours` | maze.py:205-227 | One expansion marks and enqueues exactly the open, unvisited neighbours of the dequeued cell, each once. |
| `Search.SearchStep` | maze.py:196-227 | Dequeuing a non-goal cell and expanding it keeps the search invariant. Visited cells stay reachable, the queue holds no duplicates, and dequeued cells stay closed and off the goal. Each step makes progress. |
| `Search.ExhaustedSearch` | maze.py:196-229 | When the queue runs dry, no goal cell is reachable. |
| `Search.FindPathToGoal` | maze.py:183-229 | It returns true if and only if some cell on the goal row or column is reachable through in-bounds, unblocked steps. It dequeues at most N*N cells. |
| `Rules.IsValidWallPlacement` | maze.py:231-272 | The result is true exactly when the wall is legal. It is false for an anchor outside 0..N-2, an overlapping unit, or the literal crossing. When true, every player not on its goal still reaches it with the two units added. |
| `Rules.CommitKeepsPathsOpen` | maze.py:255-272 | After a legal wall is committed, every player can still reach its goal. |
| `Rules.CommitKeepsValid` | maze.py:283-294 | Committing a wall from a non-empty inventory keeps the match invariant. In particular no count goes negative. |
| `Rules.PlaceWall` | maze.py:274-295 | A wall is refused, with the state unchanged, when the mover has no walls or the wall is illegal. On success, exactly the two units are added and only the mover's count drops by one. The mover's list gains `(o, r, c)`, the turn passes, and no player is cut off. |
| `Rules.MovePlayer` | maze.py:297-315 | A move is accepted exactly for legal destinations, and a refused move changes nothing. On success only the mover's pawn moves. Landing on the goal ends the game with the mover as winner and keeps the turn. Otherwise the turn becomes `(current + 1) mod numPlayers`. |
| `Rules.NextTurn` | maze.py:317-324 | In a running game the turn passes to `(current + 1) mod numPlayers`. A finished game is left unchanged. The turn index stays in range, and nothing but the turn changes. |
| `Rules.TurnsCycle` | maze.py:317-324 | After k turn changes in a running game, player `(current + k) mod numPlayers` is to move. |
| `Invariants.MoveKeepsValid` | maze.py:297-315 | An accepted move keeps the pawns pairwise distinct and on the board. It ends the game exactly when the mover reaches its goal. |
| `Invariants.MoveIsReversible` | maze.py:121-177 | From any legal destination the mover can walk back to its old cell. |
| `Invariants.MoveKeepsPathsOpen` | maze.py:297-315 | An accepted move leaves every player a path to its goal. |
| `Invariants.PlayKeepsInvariant` | maze.py:742-763 | One input, handled as the event loop handles it, keeps both invariants: `Valid` and every goal reachable. |
| `Invariants.RulesKeepInvariant` | maze.py:231-324 | Two facts hold after any sequence of inputs from a fresh match. The state is `Valid`: distinct pawns on the board, conserved wall inventories, and the winner is exactly the player on its goal. Every player can still reach its goal. |

## Left out

- Rendering, fonts, textures, colours, buttons and the UI drawing code are left out. They are calls into a graphics library.
- The event loop and the mouse-to-cell and mouse-to-intersection mapping are left out. They are input plumbing, and their snapping branches change nothing. Only the game-over guard is kept.
- The status `message` strings and the UI fields are left out: hover, placement mode, selected wall type and button states. They have no bearing on the rules.
- The cached `possible_moves` field is replaced by calling `Moves.PossibleMoves` on demand. The result is a pure function of the state, so two calls without a transition agree.
- `find_path_to_goal` takes a player index and optional trial sets. `Search.FindPathToGoal` instead takes the wall set, start cell and goal directly. Calling it without trial sets corresponds to passing the live `s.walls`.
- The copies of the wall sets made for the trial are implicit. States are values, so `Rules.IsValidWallPlacement` cannot change the live walls.
- The number of players is a parameter from 1 to 4. The program itself always sets it to 2.
- The board size is fixed at 9.
- Restarting a match is modelled by calling `GameState.Initial` again.
