# 8-puzzle solver: a verified model

This project models the core of `eight_puzzle_project1.py` in Dafny. That
program solves the 8-puzzle with a best-first search that can run as
uniform-cost search or as A* with the misplaced-tile heuristic. The model
covers:

- the board and its blank lookup (`Problem.find_blank`);
- the transition model (`Problem.get_successors`) and the goal test
  (`Problem.is_goal`);
- the misplaced-tile heuristic and the zero heuristic of uniform-cost search;
- the search loop `general_search`, with its frontier ordered by f(n) = g(n) + h(n),
  its visited set, its count of expanded nodes and its peak frontier size;
- `reconstruct_path`, which rebuilds the move sequence from the parent links;
- the solvability gate `is_solvable`, which counts inversions.

A board is the nine cells flattened row by row (`Puzzle.Grid`). Cell
(row, col) is index `3 * row + col`, and 0 is the blank. A search node is a
datatype whose parent is an `Option<Node>` (`Paths.Node`).

Beyond what each operation computes, the proofs establish:

- **Search soundness.** A returned path is a valid sequence of moves from the
  initial board to the goal.
- **Search completeness.** When the frontier runs dry, no sequence of moves
  reaches the goal. The proof rests on an invariant: every move from a visited
  board leads to a visited board or to one waiting in the frontier.
- **Search bookkeeping.** Each turn pops a node of least priority
  f(n) = g(n) + h(n). The search records its own execution, a sequence of
  loop states linked turn by turn, and the counters it returns are read off
  that record: the boards expanded, none twice, and the largest frontier size
  before a pop. The search terminates.
- **Solvability.** On a legal board, every move keeps the parity of the
  inversion count. So when a legal board fails the gate, no move sequence
  leads from it to the default goal. On a board with repeated values a move
  can change that parity, so the argument needs legality.

Files:

| file | module | contents |
|---|---|---|
| `wrappers.dfy` | `Wrappers` | `Option` and `Result` |
| `puzzle.dfy` | `Puzzle` | boards, positions, legal configurations, `find_blank` |
| `moves.dfy` | `Moves` | moves of the blank, `get_successors` |
| `heuristics.dfy` | `Heuristics` | heuristic selection, the misplaced-tile count |
| `solvability.dfy` | `Solvability` | `is_solvable`, inversion parity, parity kept by moves |
| `paths.dfy` | `Paths` | nodes, `reconstruct_path`, valid move sequences |
| `search.dfy` | `Search` | `Problem`, `general_search` |

Every citation below is a line range of `eight_puzzle_project1.py`.

## Model

| member | source | states |
|---|---|---|
| Puzzle.FindBlank | eight_puzzle_project1.py:44-50 | The blank is the first cell, in row-major order, that holds 0: every earlier cell is non-zero. The result is `None` exactly when no cell holds 0. |
| Puzzle.BlankIsUnique | eight_puzzle_project1.py:44-50 | On a legal configuration, the cell `find_blank` reports is the only cell holding 0. |
| Puzzle.PermutationHasBlank | eight_puzzle_project1.py:44-50 | A legal configuration always has a blank (pigeonhole), so `find_blank` never returns `None` on one. |
| Moves.Apply | eight_puzzle_project1.py:64-72 | A move is possible exactly when the board has a blank and the target cell one step away lies on the board. |
| Moves.Successors | eight_puzzle_project1.py:52-76 | The successors are exactly the (move, board) pairs of the moves that stay on the board, listed in the order LEFT, RIGHT, UP, DOWN. |
| Moves.SuccessorsFrom | eight_puzzle_project1.py:64-74 | The loop over the move table from place `n` on yields exactly the on-board moves of rank at least `n`, in rank order. |
| Moves.SuccessorShape | eight_puzzle_project1.py:65-74 | On a legal board, in each successor the target is the blank's neighbour in the labelled direction. The old blank cell holds the target's tile, the target holds 0, all other cells are unchanged, and a legal board stays legal. |
| Moves.ApplyPreservesPermutation | eight_puzzle_project1.py:70-72 | A move exchanges two cells, so a legal configuration stays legal. |
| Moves.ApplyKeepsCells | eight_puzzle_project1.py:70-72 | After a move the board still has a blank and holds no value it did not hold before. |
| Moves.SuccessorCount | eight_puzzle_project1.py:57-68 | A corner blank has 2 successors, an edge blank 3, and the centre 4. |
| Moves.MoveUndo | eight_puzzle_project1.py:57-72 | On a legal board, the opposite move restores the board. |
| Heuristics.ParseHeuristic | eight_puzzle_project1.py:120-128 | A recognised name yields the selector of that name. The dispatch fails exactly when the name is none of `uniform`, `misplaced`, `euclidean`. |
| Heuristics.ParseName | eight_puzzle_project1.py:121-126 | Each of the three names selects its own heuristic. |
| Heuristics.MisplacedTiles | eight_puzzle_project1.py:79-86 | The count equals the size of the set of cells that hold a tile, not the blank, differing from the goal's tile there. So it is at most 9. |
| Heuristics.CountZero | eight_puzzle_project1.py:81-86 | The count over the first `n` cells is zero exactly when none of them holds a misplaced tile. |
| Heuristics.MisplacedBound | eight_puzzle_project1.py:79-86 | On a board with a blank, at most 8 tiles are misplaced. |
| Heuristics.MisplacedZeroIffGoal | eight_puzzle_project1.py:79-86 | Take a board with no repeated value and a goal with a blank. The misplaced-tile count is zero exactly when the board is the goal. |
| Heuristics.MisplacedConsistent | eight_puzzle_project1.py:79-86 | One move changes the misplaced-tile count by at most one. |
| Heuristics.Estimate | eight_puzzle_project1.py:121-124 | The uniform estimate is 0. Any estimate is 0 exactly when the heuristic is uniform or no tile is misplaced. |
| Heuristics.EstimateGoalZero | eight_puzzle_project1.py:121-124 | Both modelled heuristics are zero on the goal. |
| Solvability.CountInversions | eight_puzzle_project1.py:223-228 | The nested loops count exactly the pairs i < j with flat[i] > flat[j]. |
| Solvability.CountSmallerAfter | eight_puzzle_project1.py:226-228 | The inner loop counts exactly the later elements smaller than flat[i]. |
| Solvability.IsSolvable | eight_puzzle_project1.py:218-231 | The gate accepts exactly the boards whose tiles, blank dropped and read row by row, have an even number of inversions. |
| Solvability.HorizontalMoveKeepsTiles | eight_puzzle_project1.py:221 | On a legal board, a LEFT or RIGHT move leaves the flattened tiles exactly as they were. |
| Solvability.VerticalMoveKeepsParity | eight_puzzle_project1.py:221-231 | On a legal board, an UP or DOWN move carries one tile past two others, so the inversion count keeps its parity. On a board with repeated values the parity can change. |
| Solvability.MovePreservesSolvable | eight_puzzle_project1.py:218-231 | On a legal board, every move keeps the gate's verdict. |
| Solvability.DefaultGoalSolvable | eight_puzzle_project1.py:37 | The default goal has no inversion, so it passes the gate. |
| Solvability.DefaultStartSolvable | eight_puzzle_project1.py:241 | The program's default start, 1 2 3 / 4 8 0 / 7 6 5, has six inversions and passes the gate. |
| Solvability.SwappedGoalUnsolvable | eight_puzzle_project1.py:218-231 | The goal with tiles 7 and 8 exchanged has one inversion, so the gate rejects it. |
| Paths.ReconstructPath | eight_puzzle_project1.py:207-215 | Following parent links up to the root and reversing yields the (action, state) steps from the root down to the node. |
| Paths.DerivedPath | eight_puzzle_project1.py:207-215 | For a node built by the search, the rebuilt path is a valid move sequence from the initial board that ends on the node's board and has one step per level of depth. |
| Paths.DerivedCells | eight_puzzle_project1.py:174-183 | Every board the search builds from an initial board with a blank has a blank and holds only values of the initial board. |
| Paths.PathKeepsSolvable | eight_puzzle_project1.py:218-231 | Along a valid move sequence from a legal board, every board stays legal and keeps the gate's verdict. |
| Paths.UnsolvableNeverReachesGoal | eight_puzzle_project1.py:284-287 | From a legal board the gate rejects, no valid move sequence ends on the default goal. This is why `main` may stop before searching. |
| Search.DefaultProblem | eight_puzzle_project1.py:35-37 | A problem built without a goal gets a legal configuration whose blank is the bottom-right cell, and that goal passes the solvability gate. |
| Search.GoalTest | eight_puzzle_project1.py:40-42 | The goal test agrees with the misplaced-tile count. On the goal no tile is misplaced. Conversely, take a board without repeated values and a goal with a blank: a count of zero means the board passes the goal test. |
| Search.Root | eight_puzzle_project1.py:130-132 | The root holds the initial board at depth 0 with no parent. Its priority is 0 under uniform-cost search. |
| Search.ChildrenOf | eight_puzzle_project1.py:174-183 | A child is built for a successor exactly when the successor's board is not visited. When the successors come in the order of the move table, the children keep that order and none occurs twice. There are no more children than successors. |
| Search.Expand | eight_puzzle_project1.py:171-183 | Each child is one legal move below the node, with an unvisited board, depth one more, and priority depth + h(board) (just the depth for uniform cost). Every unvisited move gives a child, each exactly once, in the order LEFT, RIGHT, UP, DOWN of its move, so there are at most 4 children. |
| Search.MinCostExists | eight_puzzle_project1.py:148-149 | A non-empty frontier has a node of least priority to pop. |
| Search.InvariantInit | eight_puzzle_project1.py:130-137 | The initial frontier and the empty visited set meet the search invariant. |
| Search.InvariantStale | eight_puzzle_project1.py:154-156 | Discarding a popped node whose board is visited keeps the invariant. |
| Search.ExpandKeepsClosed | eight_puzzle_project1.py:158-183 | Marking the popped board visited and pushing children that cover its moves keeps every move from a visited board covered. |
| Search.InvariantExpand | eight_puzzle_project1.py:158-183 | Expanding a new non-goal node and pushing its unvisited children keeps the invariant. |
| Search.InvariantRecord | eight_puzzle_project1.py:158-172 | The boards expanded so far are distinct, and none of them is the goal. |
| Search.InvariantExhausted | eight_puzzle_project1.py:203-204 | With an empty frontier, no valid move sequence from the initial board reaches the goal. |
| Search.ExpandShrinks | eight_puzzle_project1.py:155-158 | Visiting a new board leaves fewer unvisited boards among the finitely many the search can meet. This is the termination argument. |
| Search.Solution | eight_puzzle_project1.py:160-169 | From a node on the goal, the rebuilt path is the node's path from the root (`reconstruct_path`). It is valid, ends on the goal and is as long as the node's depth. With the default goal, a legal initial board must then pass the gate. |
| Search.PeakStep | eight_puzzle_project1.py:146 | Recording one more frontier size keeps `max_queue_size` the maximum of all sizes recorded. |
| Search.Advance | eight_puzzle_project1.py:144-183 | One turn of the loop pops a node of least priority. A visited board is dropped from the frontier. An unvisited goal board is reported and the state is left as it was. Any other board is marked visited and recorded as expanded, and its unvisited children replace it in the frontier. The invariant is kept; it includes f(n) = g(n) + h(n) for every frontier node. The termination measure drops. |
| Search.FirstTurn | eight_puzzle_project1.py:130-183 | The first turn pops the root. If the root is the goal, it is reported with nothing expanded. Otherwise the initial board alone is visited and expanded, and the frontier becomes its unvisited children. |
| Search.Begin | eight_puzzle_project1.py:130-183 | Before the loop proper, the frontier size 1 is recorded and the root's turn is taken. The root is reported exactly when it is the goal; otherwise one board has been expanded. The loop invariant then holds. |
| Search.Iterate | eight_puzzle_project1.py:144-183 | One pass of the loop records the frontier size and takes one turn. The loop invariant is kept and the termination measure drops. |
| Search.Explore | eight_puzzle_project1.py:144-204 | The loop's record is an execution. It starts from the root alone, and each turn is a least-priority pop as in `Advance`. It ends when the frontier is empty, or when an unvisited goal board is popped; that node is returned. `nodes_expanded` is the number of boards that execution expanded: distinct, never the goal, and starting with the initial board when that is not the goal. `max_queue_size` is the largest frontier size before a pop. Without a goal node, no move sequence reaches the goal. |
| Search.Report | eight_puzzle_project1.py:160-169 | The returned path exists exactly when a goal node was found. It is the goal node's own path from the root; it is valid, ends on the goal, has the goal node's depth, and never exists for a legal board the gate rejects when the goal is the default. |
| Search.BestFirstSearch | eight_puzzle_project1.py:111-204 | `general_search` with a chosen heuristic returns what an execution of its loop yields. A path exists exactly when that execution popped a goal node. The path is that node's own path from the root, so it is valid, ends on the goal and has the node's depth. `None` means no move sequence reaches the goal. The counters are the boards expanded and the peak frontier size of that execution, which is at least 1. An initial goal gives `([], 0, 1)`. |
| Search.GeneralSearch | eight_puzzle_project1.py:111-215 | An unknown heuristic name raises the invalid-heuristic error, and only an unknown name does. Otherwise the result comes from an execution of the loop with the named heuristic, with that execution's counters. A returned path is the goal node's own path, rebuilt from its parent links: valid, ending on the goal, and as long as the node's depth. `None` means no move sequence reaches the goal. |

## Left out

- The Euclidean-distance heuristic is left out (lines 88-100 and 125-126). It computes with floating-point square roots. `GeneralSearch` requires the name to differ from `euclidean`, and `Heuristics.Estimate` excludes that selector.
- All printing is left out: `print_state`, the trace lines of `general_search` (lines 139-142 and 162-166), and the look-ahead at the best frontier node (lines 185-201), which only prints.
- The default argument `heuristic='uniform'` of `general_search` is left out: `GeneralSearch` always takes a name, and `uniform` gives the default behaviour.
- `get_user_input` and `main` are left out, because they read from standard input. Their solvability gate is stated as `Paths.UnsolvableNeverReachesGoal` and in the contract of `Search.Report`.
- The heap layout of `heapq` is left out. Among nodes of equal priority, the model may pop any one, so properties proved here hold for every tie-breaking order.
- Optimality of the returned path (the A* guarantee) is not proved.
- `Node.__eq__`, `Node.__hash__` and `Problem.operators` are left out: the search never uses them. The visited set holds boards, as the tuple conversion of `general_search` does.
- Search.Advance: on reaching the goal, `general_search` has already popped the goal node from the heap (line 149) and adds its board to `visited` (line 158) before returning. The model leaves both the frontier and `visited` unchanged there, because both are discarded at once and neither the path nor the counters depend on them.
- Search.GeneralSearch: requires the initial board to have a blank. On a board without one, `get_successors` fails when it unpacks the missing blank position (line 55). The model therefore does not cover a blank-free initial board that already equals a blank-free goal, for which `general_search` returns the empty path without expanding.
- Search.NewProblem: the goal is an `Option`. The expression `goal_state if goal_state else` also replaces a falsy goal, such as an empty list, and no nine-cell board is falsy.
- Search.BestFirstSearch: does not restate the solvability gate. That consequence is part of the contract of `Search.Report`, which `BestFirstSearch` returns unchanged.
