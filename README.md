# 8-puzzle solver — a verified Dafny model

This project models the 8-puzzle solver in `W2/w2.py` and proves properties of it:

- the configuration model: a 3×3 board stored row-major as nine cells, with 0 as the blank;
- the goal `(1, 2, 3, 4, 5, 6, 7, 8, 0)` and its `goal_positions` table;
- move generation (`get_actions`) and the move itself (`apply_action`);
- the Manhattan-distance and linear-conflict heuristics;
- the best-first search `solve`, together with its `PuzzleNode` records.

The model is split into four modules:

- `Wrappers` (`wrappers.dfy`): `Option` and `Result`.
- `Puzzle` (`puzzle.dfy`): configurations, the goal, `Actions` (`get_actions`), `Apply` (`apply_action`), `Run` (folding `Apply` over a move list), and `Key` (`string_state`).
- `Heuristics` (`heuristics.dfy`): each heuristic appears twice. One form is a specification function (`Manhattan`, `LinearConflict`). The other is the accumulator loop of the source (`ManhattanDistance`, `LinearConflictValue`), proved equal to it.
- `Search` (`search.dfy`): `Solve`, the source's `solve`, selects the heuristic and calls `BestFirst`, a method with the source's `while` loop over a frontier, an explored set and a counter.
  - Each turn of the loop is described by a ghost step `Pop`. It takes the frontier, the expanded nodes and the explored set (a `Snapshot`) and the index of a least-priority node. If that node's state is explored, the node is dropped. Otherwise the state is explored, and unless it is the goal, its children are pushed.
  - `Traced` says that a sequence of snapshots is a run: it starts at the start node alone on the frontier, with nothing explored, and each snapshot is the `Pop` of the one before. `Solve` returns the run its loop made, as ghost outputs.
  - Parent pointers are modelled as an *arena*: the sequence of expanded nodes, in expansion order.
  - A node's parent is an index into the arena, always smaller than the node's own position.
  - `TracePath` follows these links back to the root and reverses the moves.

The main results are these.

- When `Solve` returns a path, every move on it is legal. Applying the moves from the initial configuration reaches the goal, and the returned cost is the path's length.
- When `Solve` returns `None`, the set of expanded states is closed under moves and does not contain the goal. Therefore no move sequence reaches the goal from the initial configuration.
- The returned run is a run in the sense of `Traced`, and no snapshot before the last has the goal explored: the loop stops at the first expansion of the goal, or when the frontier is empty.
- The expansion counter equals the size of the explored set in the run's last snapshot, which is the number of distinct states expanded. Each of those states is reachable.
- An initial goal configuration yields `([], 0, 1)`.
- The search loop always terminates. It carries a lexicographic measure: first the states not yet expanded (a subset of the finite set of nine-cell words over 0..8), then the frontier size.
- The Manhattan distance is admissible. Every move changes it by exactly one, so it never exceeds the length of a path to the goal.

## Model

| member | source | states |
|---|---|---|
| Puzzle.GoalPos | W2/w2.py:28-29 | the goal index of a tile value holds that value in the goal |
| Puzzle.GoalPosOfGoal | W2/w2.py:29 | `goal_positions` inverts the goal tuple: the value at goal index i maps back to i |
| Puzzle.IndexOf | W2/w2.py:33 | `tuple.index` returns the first index holding the value |
| Puzzle.Blank | W2/w2.py:33 | the blank index is on the board and holds 0 |
| Puzzle.Actions | W2/w2.py:31-40 | at most four moves are offered |
| Puzzle.ActionsConditions | W2/w2.py:31-40 | U iff row > 0, D iff row < 2, L iff col > 0, R iff col < 2 (row, col = divmod(blank, 3)); moves come without repetition in the order U, D, L, R |
| Puzzle.ActionsStayOnGrid | W2/w2.py:31-40 | a move is offered exactly when the blank's neighbour in that direction is on the 3×3 grid |
| Puzzle.GoalBlank | W2/w2.py:28 | the goal's blank is at index 8 |
| Puzzle.ActionsAtCorner | W2/w2.py:31-40 | with the blank at index 8, exactly [U, L] is offered |
| Puzzle.ActionsAtGoal | W2/w2.py:28-40 | at the goal, `get_actions` returns exactly [U, L] |
| Puzzle.SwapIndex | W2/w2.py:46-53 | the swap index is the blank index moved by the move's row offset (±3) or column offset (±1) |
| Puzzle.SwapIndexIsNeighbour | W2/w2.py:46-53 | for an offered move, the swap index is on the board, differs from the blank, and lies one row or one column away |
| Puzzle.Apply | W2/w2.py:42-56 | the result has nine cells and a blank; a board whose tiles are all 0..8 stays so |
| Puzzle.ApplySwaps | W2/w2.py:42-56 | the blank cell and the swap cell are exchanged, every other cell is unchanged, and the result is a permutation of the input |
| Puzzle.ApplyMovesBlank | W2/w2.py:42-56 | a permutation of 0..8 stays one, and its blank moves to the swap index |
| Puzzle.Opposite | W2/w2.py:46-53 | the opposite move has negated row and column offsets |
| Puzzle.OppositeOffered | W2/w2.py:31-53 | after a move, the opposite move is offered and swaps back with the old blank cell |
| Puzzle.SwapTwice | W2/w2.py:55 | exchanging the same two cells twice restores the sequence |
| Puzzle.ApplyOpposite | W2/w2.py:42-56 | U/D and L/R undo each other: applying a move and then its opposite restores the configuration |
| Puzzle.RunKeepsConfig | W2/w2.py:42-56 | a sequence of legal moves applied to a permutation of 0..8 yields a permutation of 0..8 |
| Puzzle.RunSnoc | W2/w2.py:42-56 | running a path and then one more legal move is the run of the extended path |
| Puzzle.RunCons | W2/w2.py:42-56 | running a legal move and then a path is the run of the joined path |
| Puzzle.Key | W2/w2.py:22-23 | `string_state` has one decimal digit per cell, in cell order |
| Puzzle.KeyInjective | W2/w2.py:22-23 | two digit-valued configurations have equal keys exactly when they are equal, so the explored set may hold states instead of strings |
| Heuristics.TileDistance | W2/w2.py:60-65 | a cell's contribution is zero exactly when it holds the blank or a tile at its goal index |
| Heuristics.ManhattanSumBound | W2/w2.py:58-66 | each cell adds at most four, the grid's diameter, so the first n cells sum to at most 4n |
| Heuristics.ManhattanDistance | W2/w2.py:58-66 | the accumulator loop computes the Manhattan sum over all nine cells |
| Heuristics.ManhattanSumZero | W2/w2.py:58-66 | a sum of cell distances is zero exactly when every cell distance is zero |
| Heuristics.ManhattanZeroIffGoal | W2/w2.py:58-66 | on a permutation of 0..8, the Manhattan distance is zero exactly at the goal |
| Heuristics.ManhattanSumTwoChanges | W2/w2.py:58-66 | changing two cells changes the sum by exactly the change of those two cells' distances |
| Heuristics.TileDistanceNeighbour | W2/w2.py:58-66 | a tile sliding into the blank's cell gets exactly one step nearer to or farther from its goal |
| Heuristics.MoveChangesManhattanByOne | W2/w2.py:42-66 | every move changes the Manhattan distance by exactly one |
| Heuristics.ManhattanAdmissible | W2/w2.py:58-66 | the Manhattan distance never exceeds the length of a move sequence that reaches the goal |
| Heuristics.Cell | W2/w2.py:72 | position `pos` of row or column `line` is the cell with that row and column |
| Heuristics.LinearConflictDominates | W2/w2.py:68-95 | the value is at least the Manhattan distance and differs from it by an even amount |
| Heuristics.ScanLine | W2/w2.py:71-81 | one row (or column) scan adds two to the running count for every pair i < j whose tiles both belong to that line in the goal and stand in reversed goal order |
| Heuristics.LinearConflictValue | W2/w2.py:68-95 | the row scans, the column scans and the final Manhattan call compute the Manhattan distance plus two per conflicting pair |
| Heuristics.NoConflictAtGoal | W2/w2.py:68-95 | no pair of the goal is in conflict |
| Heuristics.LinearConflictZeroIffGoal | W2/w2.py:68-95 | on a permutation of 0..8, the linear-conflict value is zero exactly at the goal |
| Heuristics.HeuristicsAtGoal | W2/w2.py:58-95 | both heuristics are zero at the goal |
| Search.SelectHeuristic | W2/w2.py:98-105 | no selector selects uniform cost, "manhattan" and "linear_conflict" select their heuristic, and anything else is the `ValueError` |
| Search.EstimateBounds | W2/w2.py:98-105 | the estimates are ordered (0 ≤ Manhattan ≤ linear conflict) and all are zero at the goal |
| Search.Evaluate | W2/w2.py:98-105 | the selected heuristic `h` computes the estimate of its kind |
| Search.LessOrder | W2/w2.py:16-17 | `__lt__` on cost + heuristic is irreflexive, asymmetric and transitive; two nodes neither of which is less have equal priority |
| Search.LinkedGrow | W2/w2.py:5-14 | a node's parent link stays valid when the arena grows |
| Search.Reversed | W2/w2.py:126 | `path[::-1]` puts element i at position len-1-i |
| Search.TracePath | W2/w2.py:121-126 | following the parent links back from an arena node and reversing yields legal moves that lead from the initial state to the node's state; the path length equals the node's depth and cost |
| Search.PopIndex | W2/w2.py:113 | `heappop` takes a node that no other frontier node is `__lt__` |
| Search.StatesRemove | W2/w2.py:113 | popping a node loses at most that node's state from the frontier |
| Search.ClosedStep | W2/w2.py:115-138 | expanding states and pushing all their children keeps the explored set closed relative to the frontier |
| Search.ClosedHoldsReachable | W2/w2.py:112-140 | once the frontier is empty, a closed explored set holds every state reachable from its members |
| Search.ReachableStep | W2/w2.py:128-138 | a child of a reachable state is reachable |
| Search.InAllStates | W2/w2.py:112 | every board with tiles 0..8 belongs to the finite set of nine-cell words over 0..8 |
| Search.ArenaGrow | W2/w2.py:118-119 | giving an expanded node an arena handle keeps the arena and the frontier linked |
| Search.FrontierRemove | W2/w2.py:113 | removing a node keeps the rest of the frontier well formed |
| Search.ChildPending | W2/w2.py:128-137 | a child is one move below its parent, its cost is one more than the parent's (so cost equals depth), its heuristic is `h` of its state, and it is reachable |
| Search.ChildrenPending | W2/w2.py:128-138 | every child pushed is one legal move below its parent, costs one more, carries `h` of its state and is reachable |
| Search.ChildrenStates | W2/w2.py:128-138 | after the pushes every earlier frontier state is still pending, and so is the result of every offered move |
| Search.PushChildren | W2/w2.py:128-138 | the frontier after the loop is exactly the old frontier followed by one child per offered move in U, D, L, R order; it stays well formed and holds every old state and every child state |
| Search.StartInv | W2/w2.py:107-110 | the start node (cost 0, no parent, heuristic `h` of the start) alone on the frontier with nothing explored satisfies the search invariant, and the one-snapshot sequence is a run that begins there |
| Search.SkipStep | W2/w2.py:113-116 | skipping a popped node whose state was explored keeps the search invariant |
| Search.ExpandLinks | W2/w2.py:113-119 | a popped node with a new state can be recorded as expanded: the nodes stay linked, the rest of the frontier stays well formed, and the node's state is a reachable valid board |
| Search.ExpandFacts | W2/w2.py:118-119 | recording a new state increments the count by one; the first expansion is the start node |
| Search.ExpandClosed | W2/w2.py:118-138 | expanding a state and pushing all its children keeps the explored set closed |
| Search.ExpandStep | W2/w2.py:113-138 | one non-goal expansion keeps the search invariant |
| Search.FoundFacts | W2/w2.py:113-126 | when the goal is popped, the count plus one equals the number of explored states with the goal added, the start state is among them, all are reachable, and an initial goal gives the empty path with one expansion |
| Search.ExhaustedFacts | W2/w2.py:112-140 | an empty frontier means the count is the number of explored states, the explored set is closed and lacks the goal, so no move sequence reaches the goal |
| Search.PoppedValid | W2/w2.py:113 | a node popped from a well-formed frontier holds a valid board with a blank |
| Search.TracedSnoc | W2/w2.py:112-138 | extending a run by the `Pop` of a least-priority node of its last frontier gives a run |
| Search.TraceSkip | W2/w2.py:113-116 | skipping a popped explored node extends the run by a snapshot with that node removed and nothing else changed |
| Search.TraceExpand | W2/w2.py:113-138 | expanding a popped non-goal node extends the run by a snapshot that records the node, explores its state and pushes its children |
| Search.TraceGoal | W2/w2.py:113-126 | expanding the popped goal extends the run by its final snapshot, and no earlier snapshot has the goal explored |
| Search.SkipTurn | W2/w2.py:113-116 | a skipping turn keeps both loop invariants: the search invariant and "the history is a run ending in the current state" |
| Search.ExpandTurn | W2/w2.py:113-138 | an expanding turn keeps both loop invariants |
| Search.GoalTurn | W2/w2.py:113-126 | at the goal, the path traced back and the extended run are what the loop reports: a run from the start that stops at the first goal expansion, a count equal to its explored states, and a legal path to the goal whose cost is its length |
| Search.ExhaustedTurn | W2/w2.py:112-140 | on an empty frontier, the run is what the loop reports: the goal never explored, the count equal to the explored states, and no move sequence reaching the goal |
| Search.BestFirst | W2/w2.py:107-140 | the loop returns a run of least-priority pops from the start node that stops at the first goal expansion or when the frontier is empty. nodes_expanded is the number of explored states of the last snapshot, each reachable. A found path is legal, reaches the goal and costs its length, the depth of the last expanded node. `None` comes with cost -1, an empty frontier and a closed explored set without the goal, so no move sequence reaches the goal. An initial goal gives ([], 0, 1). |
| Search.Solve | W2/w2.py:97-140 | an unknown selector is the `ValueError`. Otherwise the ghost outputs are a run of least-priority pops from the start node under the selected heuristic, in the sense of `Traced`, and no snapshot before the last has the goal explored, so the loop stopped at the first goal expansion or at an empty frontier. nodes_expanded is the number of distinct states explored in the last snapshot, each reachable from the start. A found path is legal, reaches the goal, and costs its length (the goal node's depth). `None` comes with cost -1 and an empty frontier, and means that no path exists. An initial goal gives ([], 0, 1). |

## Left out

- `print_solution`, `plot_performance` and the `__main__` block (wall-clock timing, the driver runs): these are console output, charting and a clock, with no logic to verify.
- `PuzzleNode.__repr__`: formatting only.
- `heapq` layout and tie order: the frontier is a sequence, and a pop takes any node of least `cost + heuristic`. Which of several equal-priority nodes comes out is left open, as `heapq` does not promise one.
- Node identity: the `PuzzleNode` objects are values. A node's `parent` is an index into the sequence of expanded nodes, not an object reference. `depth` is set to the parent's depth plus one, and to 0 for the start node, exactly as the constructor does.
- The explored set holds configurations, not their `string_state` strings. `Puzzle.KeyInjective` shows that the two tests agree on boards with digit values.
- The child filter `new_state not in explored` compares a tuple with a set of strings, so it never excludes a child. The model pushes every child, and duplicates are removed only by the check when a node is popped. The model keeps the ties between equal-priority nodes open, so a run of the source that pops duplicates in some order is one of the runs the model allows.
- Search.Solve: it requires a nine-cell board with a blank and tiles 0..8 whenever the selector is valid. Under a heuristic, the source raises an exception in `goal_positions` on other tile values. Under uniform cost (no selector) the source accepts any nine-cell board holding a 0, for example (1, 2, 3, 4, 5, 6, 7, 9, 0), explores its whole component and returns (None, -1, n). The model does not cover that input. It also does not reproduce `string_state` keys colliding for values outside 0..9.
- Puzzle.Apply: it requires an offered move. The source is only ever called with moves from `get_actions`. An illegal move would swap with a wrapped-around Python index, or raise, and neither is modelled.
- Puzzle.Key: values are limited to 0..9, where `str` yields one digit.
- Search.Solve: the results do not state optimality of the path (A*/uniform-cost optimality). They do not compare `nodes_expanded` across heuristics, and they do not state admissibility of linear conflict. These are claims about the whole state graph. Of them, only Manhattan admissibility is proved (`Heuristics.ManhattanAdmissible`).
- Search.Solve: it does not decide solvability by permutation parity. Exhaustion is stated as "no move sequence reaches the goal".
