# Reversi engine core in Dafny

This project models the core of an 8×8 Reversi engine: the board, its
placement rule and end-of-game verdict, a depth-limited negamax search with
fail-soft alpha-beta pruning, and a Monte Carlo tree search. It proves the
rules each component promises. There are three modules, one per source
file:

- `chessboard.dfy`, module `Chessboard`, models `reversi/src/chessboard.cc`.
  - A board is the 128-cell `data_` plane pair as a `seq<bool>`.
  - `Place` is a method that writes the placed board into an output `array<bool>`, or only probes when the array is `null`.
  - `Place`'s probe is proved equal to the declarative flanking rule `Legal`, and `GetWinner` to the declarative verdict `Winner`.
  - The board a move produces, `Applied`, is a fold over the eight rays that follows the source's apply loop. It is characterised declaratively, cell by cell, by `AppliedAt`, `FlippedIffRun` and `MoveCounts`.
- `minimax.dfy`, module `Minimax`, models `reversi/include/minimax_tree.h`.
  - `MinimaxTreeNode` is a class with the node's `estimatedValue`, `childs` and `pass` fields.
  - Its recursive `Search` is proved fail-soft against a ghost negamax function, `Negamax`.
  - `MinimaxTree.Search` is proved to return the first legal cell of best negamax score.
- `mcts.dfy`, module `Mcts`, models `reversi/include/mcts.h`.
  - The tree is an arena: a `seq<Node>` held by the class `MCTS`. Nodes are addressed by index and each holds its father's index.
  - `Expand`, `Backup`, `Select`, `SimulateOnce`, `Simulate`, `RunOnce` and `Search` are methods on that class.
  - Each is proved against the spec functions `Grown`, `BackedUp`, `FirstMax`, `Rollout` and `Rollouts`.
  - The arena invariant `ValidArena` holds throughout. It requires:
    - links that fit their slot;
    - children created after their fathers;
    - no reward without visits;
    - -n ≤ sigmaQ ≤ n.

## Model

| member | source | states |
|---|---|---|
| Chessboard.RayFollowsDirs | reversi/src/chessboard.cc:32-37 | The scan's ray t visits (x, y) + k·mul·DIRS[dir] for dir = t / 2, with mul = -1 for even t and +1 for odd t: the four directions, each in both senses. |
| Chessboard.RayLeaves | reversi/src/chessboard.cc:35-40 | Within eight steps every ray leaves the board, so the `i <= 8` bound of the scan loses no run. |
| Chessboard.ScanStopProps | reversi/src/chessboard.cc:35-42 | The scan of a ray stops at a distance between 1 and 8. Every cell it passed holds an opponent stone and no own stone, and the cell it stops at does not. |
| Chessboard.ClosesIffFlanks | reversi/src/chessboard.cc:32-47 | The stop test (in bounds, i ≥ 2, own stone) succeeds exactly when the ray holds a run of one or more opponent stones closed by an own stone. |
| Chessboard.ScanLine | reversi/src/chessboard.cc:34-45 | The scan loop of one ray returns the stop distance and whether the ray closes. |
| Chessboard.Probe | reversi/src/chessboard.cc:31-48 | The probe returns true exactly when the cell is empty for both players and some ray flanks. |
| Chessboard.FlipRay | reversi/src/chessboard.cc:72-77 | The flip loop gives cells 1 .. i-1 of the ray to `c` and clears them from `c ^ 1`. The rest of the buffer stays as it was. |
| Chessboard.ApplyTo | reversi/src/chessboard.cc:55-79 | The apply phase leaves the buffer holding the copied board, with the target set and every closed ray flipped. |
| Chessboard.Place | reversi/src/chessboard.cc:29-81 | The result is `Legal`, whether or not an output buffer is given. With a buffer and a legal move, the buffer receives the placed board. Otherwise nothing is written. |
| Chessboard.AppliedAt | reversi/src/chessboard.cc:55-79 | After a move, cell by cell: the target gains the mover's stone; each flipped cell holds exactly the mover's stone; every other cell keeps what it had. |
| Chessboard.RunFromAtStop | reversi/src/chessboard.cc:35-45 | A run closed by an own stone along a ray ends exactly where the scan of that ray stops, and only there. |
| Chessboard.FlippedIffRun | reversi/src/chessboard.cc:41-45 | The cells a move flips are exactly those strictly between the target and the closing own stone of a run along some ray. |
| Chessboard.FlippedWasOpponent | reversi/src/chessboard.cc:41-45 | A flipped cell is not the target. Before the move it held an opponent stone and no own stone. |
| Chessboard.LegalFlipsOne | reversi/src/chessboard.cc:43-46 | A legal move flips at least one stone. |
| Chessboard.MoveCounts | reversi/src/chessboard.cc:55-79 | With f ≥ 1 flipped cells, the mover gains 1 + f stones and the opponent loses f, so the board gains exactly one stone. |
| Chessboard.MoveKeepsOneStonePerCell | reversi/src/chessboard.cc:55-79 | A legal move keeps every cell to at most one stone. |
| Chessboard.OpeningMoves | reversi/src/main.cc:60-64 | From the opening position, player 0 may place on (2, 3), (3, 2), (4, 5) and (5, 4). |
| Chessboard.OpeningMovesExactly | reversi/src/main.cc:60-64 | From the opening position, those four cells are the only legal ones for player 0. |
| Chessboard.GetWinner | reversi/src/chessboard.cc:8-27 | -1 exactly when either player has a legal cell. Otherwise: -2 on equal stone counts, 1 when player 1 has more stones, 0 when player 0 has more. |
| Chessboard.ProbeCell | reversi/src/chessboard.cc:16-21 | One cell of the verdict scan: reports a legal cell for player 0 or 1. When there is none, it adds each player's stone to the totals. |
| Minimax.Eval | reversi/include/minimax_tree.h:50-61 | The static evaluation (own stones minus opponent stones) lies in [-64, 64]. |
| Minimax.EvalAntisymmetric | reversi/include/minimax_tree.h:50-61 | The evaluation changes sign when `who ^ 1` is evaluated on the same board. |
| Minimax.CellScoreLegal | reversi/include/minimax_tree.h:27-33 | The scan takes a child score from a cell exactly when the cell is a legal placement. That score is the negated negamax value of the placed board. |
| Minimax.BestMonotone | reversi/include/minimax_tree.h:25-33 | The running maximum `ret` never decreases along the row-major scan. |
| Minimax.BestUpper | reversi/include/minimax_tree.h:25-33 | The running maximum bounds the score of every cell already scanned. |
| Minimax.BestAttained | reversi/include/minimax_tree.h:25-33 | A running maximum other than INT32_MIN is the score of some legal cell already scanned. |
| Minimax.BestHasMove | reversi/include/minimax_tree.h:25-34 | A running maximum other than INT32_MIN part-way through the scan shows that the node's player has a legal placement. |
| Minimax.HasMoveIffBest | reversi/include/minimax_tree.h:24-37 | `has_child` ends true exactly when the node's player has a legal placement. |
| Minimax.LeafValue | reversi/include/minimax_tree.h:21 | At depth 0 the static evaluation equals the negamax value, whatever alpha is, and so is fail-soft too. |
| Minimax.ScanStart | reversi/include/minimax_tree.h:22-25 | The scan starts with `ret` = INT32_MIN, the maximum over no cells. |
| Minimax.ScanRowEnd | reversi/include/minimax_tree.h:25-26 | The end of a row of the scan is the start of the next. |
| Minimax.ScanSkip | reversi/include/minimax_tree.h:27 | An illegal cell leaves `ret` unchanged. |
| Minimax.BestFold | reversi/include/minimax_tree.h:29-33 | A child searched with alpha = `ret` yields a score bounded as fail-soft requires, and `max(ret, -child_value)` is the running maximum after the cell. |
| Minimax.ScanCutoff | reversi/include/minimax_tree.h:34 | On a cutoff (`-ret < alpha`) the returned value is a lower bound on the negamax value. |
| Minimax.ScanComplete | reversi/include/minimax_tree.h:37-38 | A full scan that found a child returns the running maximum, which equals the negamax value whatever alpha is, and so is fail-soft too. |
| Minimax.SecondPass | reversi/include/minimax_tree.h:39-40 | With no legal cell after a pass, the static evaluation equals the negamax value, whatever alpha is, and so is fail-soft too. |
| Minimax.FirstPass | reversi/include/minimax_tree.h:41-46 | With no legal cell and no pass before, the value is the negated value of the pass child. That child is searched at the same depth with alpha = INT32_MIN, so the negation equals the node's negamax value whatever alpha is, and is fail-soft too. |
| Minimax.FailSoftExact | reversi/include/minimax_tree.h:81 | Searched with alpha = INT32_MIN, as at the root, the value equals the negamax value. |
| Minimax.MinimaxTreeNode.constructor | reversi/include/minimax_tree.h:17-18 | A new node holds the given board and player, with no children and no pass child. |
| Minimax.MinimaxTreeNode.EstimatedValue | reversi/include/minimax_tree.h:50-61 | The two counting loops return own stones minus opponent stones. |
| Minimax.MinimaxTreeNode.Search | reversi/include/minimax_tree.h:20-48 | The result is stored in `estimatedValue` and lies in [-64, 64]. It is fail-soft: never above the negamax value, and equal to it unless its negation lies below alpha. At depth 0, and whenever the player has no legal cell, it equals the negamax value whatever alpha is. At depth 0 no child is made, and new children are only for legal cells. An uncut search leaves a searched child for every legal cell. At depth > 0 with no legal cell and no pass before, the pass slot holds a new node with the same board and the other player, and the result is the negation of its value. In every other case the pass slot is unchanged. |
| Minimax.MinimaxTreeNode.Scan | reversi/include/minimax_tree.h:22-36 | The nested scan either stops at a cutoff with a fail-soft value, or ends with `ret` the maximum child score and every legal cell searched. `has_child` is true exactly when `ret` is not INT32_MIN. A cutoff happens only when the node's player has a legal placement. |
| Minimax.MinimaxTreeNode.ScanRow | reversi/include/minimax_tree.h:25-34 | The inner loop over one row either stops at a cutoff, with a fail-soft value and a legal placement behind it, or ends with `ret` the running maximum before the next row and every legal cell of the row searched. |
| Minimax.MinimaxTreeNode.ExpandCell | reversi/include/minimax_tree.h:27-34 | For one cell: skips an illegal one; for a legal one, adds its child and folds its value. Continues exactly when the cell is illegal or no cutoff fires. `has_child` becomes true exactly when it was true or the cell is legal. |
| Minimax.MinimaxTreeNode.SearchChild | reversi/include/minimax_tree.h:28-33 | The child for a legal cell is stored in its slot. Every other child is kept, and it is fresh and fits the cell. `ret` becomes the running maximum after the cell, and every legal cell up to this one has a searched child. |
| Minimax.MinimaxTreeNode.BuildChild | reversi/include/minimax_tree.h:29-33 | The child for a legal cell is new and holds the placed board and the other player. It is searched with alpha = `ret`, its score is bounded fail-soft, and `ret` becomes the running maximum after the cell. |
| Minimax.ScoreBoundAtRoot | reversi/include/minimax_tree.h:80-86 | At the root, a legal cell's child value reproduces the root value exactly when the cell's negamax score equals it. Otherwise the cell scores below it. |
| Minimax.MatchStep | reversi/include/minimax_tree.h:82-87 | One step of the root's final scan: a match is the first legal cell of best score; a miss means the cell scores below the root value. |
| Minimax.NoneBelow | reversi/include/minimax_tree.h:88 | If every legal cell scores below the root value, there is no legal cell. |
| Minimax.MinimaxTree.constructor | reversi/include/minimax_tree.h:76-78 | The tree holds a fresh root with the given board and player. |
| Minimax.MinimaxTree.Search | reversi/include/minimax_tree.h:80-89 | The root value is the exact negamax value. The answer is (0xFFFFFFFF, 0xFFFFFFFF) or a legal cell. For depth > 0 it is the first legal cell of best score, and it is (0xFFFFFFFF, 0xFFFFFFFF) exactly when there is no legal cell. |
| Minimax.MinimaxTree.FindMove | reversi/include/minimax_tree.h:82-88 | For a root searched exactly, the scan for the first child whose value negates the root's returns (0xFFFFFFFF, 0xFFFFFFFF) or a legal cell. At depth > 0 it is the first legal cell of best score, and (0xFFFFFFFF, 0xFFFFFFFF) exactly when there is no legal cell. A root without children gives (0xFFFFFFFF, 0xFFFFFFFF). |
| Mcts.Leaf | reversi/include/mcts.h:25-30 | A new node has no children, no pass child, no visits and no reward. |
| Mcts.StatsChangeKeepsValid | reversi/include/mcts.h:56-65 | Changing only visit counts and rewards, within the bounds, keeps the arena valid. |
| Mcts.PathSign | reversi/include/mcts.h:56-65 | The sign with which a backup from node i reaches a node lies in {-1, 0, 1}, and is 0 for every node created after i. |
| Mcts.PathReachesRoot | reversi/include/mcts.h:58-62 | Every backup reaches the root. |
| Mcts.PathFather | reversi/include/mcts.h:62-63 | Along the backup path the sign flips from each node to its father. |
| Mcts.Bumped | reversi/include/mcts.h:59-60 | A backup step changes only a node's visit count and reward. |
| Mcts.BumpedStatsOk | reversi/include/mcts.h:59-60 | One more visit with a reward in [-1, 1] keeps "no reward without visits" and -n ≤ sigmaQ ≤ n. |
| Mcts.BackupStep | reversi/include/mcts.h:57-64 | One iteration of the backup walk: the current node is bumped with its path sign, and the sign flips for its father. |
| Mcts.BackupKeepsValid | reversi/include/mcts.h:56-65 | A completed backup of a reward in [-1, 1] keeps the arena valid. |
| Mcts.BackedUpVisits | reversi/include/mcts.h:56-65 | A backup from node j adds one visit to j and one to the root, and changes no node's board, player or links. |
| Mcts.Attach | reversi/include/mcts.h:42-54 | Filling a slot changes only that slot. A pass fills the pass link with j and keeps every child link. A cell fills its child link with j, keeps the pass link and every other child link, and adds no other key. Board, player, father and statistics are kept. |
| Mcts.Grown | reversi/include/mcts.h:42-54 | An expansion adds exactly one node. |
| Mcts.GrownValid | reversi/include/mcts.h:42-54 | Expanding an empty slot, for a legal cell or for the pass, keeps the arena valid. |
| Mcts.GrowThenBackUp | reversi/include/mcts.h:168-172 | After an expansion and a backup from the new node, the new node has one visit. The root has one more visit and keeps its board and player. |
| Mcts.SelectSkip | reversi/include/mcts.h:74-90 | An illegal cell, or one scoring no more than the best so far, leaves the selection unchanged. |
| Mcts.SelectTake | reversi/include/mcts.h:86-90 | A legal cell scoring strictly more than the best so far (or the first legal cell) becomes the selection. |
| Mcts.SelectDone | reversi/include/mcts.h:93-97 | After the scan, no cell was taken exactly when the player has no legal cell. Otherwise the taken cell is the first legal cell of largest score. |
| Mcts.DescendStep | reversi/include/mcts.h:160-175 | Following a selection through a taken slot leads to a later node that is again on the line of selections from the root. |
| Mcts.CandidatesBound | reversi/include/mcts.h:119-125 | The candidates before scan position (x, y) number at most 8x + y, so the 64-entry buffer never overflows. |
| Mcts.CandidatesLegal | reversi/include/mcts.h:119-125 | Every candidate is a legal cell. |
| Mcts.CandidatesComplete | reversi/include/mcts.h:119-125 | Every legal cell before the scan position is a candidate. |
| Mcts.CandidatesIffHasMove | reversi/include/mcts.h:119-127 | There is a candidate exactly when the player has a legal placement. |
| Mcts.Outcome | reversi/include/mcts.h:109-116 | A finished game scores 1 when `who` won, -1 when the other player won, and 0 on a tie. |
| Mcts.Pick | reversi/include/mcts.h:128-134 | The candidate the random draw picks is a legal cell. |
| Mcts.MeasureMove | reversi/include/mcts.h:127-138 | A placement lowers the playout's termination measure. |
| Mcts.MeasurePass | reversi/include/mcts.h:127-138 | A pass on an undecided board lowers the termination measure. |
| Mcts.Rollout | reversi/include/mcts.h:100-140 | A playout's outcome lies in [-1, 1], and the engine's draw count never decreases. |
| Mcts.RolloutDecided | reversi/include/mcts.h:108-117 | A playout ends on a board where neither player can move, and its outcome is that board's verdict seen from `who`. |
| Mcts.RolloutMove | reversi/include/mcts.h:127-138 | An undecided step with candidates places on the picked candidate and uses one draw. |
| Mcts.RolloutPass | reversi/include/mcts.h:127-138 | An undecided step without candidates keeps the board and only switches the player. |
| Mcts.Rollouts | reversi/include/mcts.h:35-38 | The sum of k playout outcomes lies in [-k, k]. |
| Mcts.MCTS.constructor | reversi/include/mcts.h:148-150 | The tree holds only the root: the given board and player, no father, no visits. |
| Mcts.MCTS.Backup | reversi/include/mcts.h:56-65 | The walk to the root gives every node on the path one more visit and the reward with alternating sign. Nodes off the path are unchanged, and a reward in [-1, 1] keeps the arena valid. |
| Mcts.MCTS.Expand | reversi/include/mcts.h:42-54 | Expands exactly when the slot (cell or pass) was empty, appending a child with the placed board (or the same board for a pass), the other player and this node as father. A taken slot leaves the tree unchanged. The slot is taken afterwards. |
| Mcts.MCTS.Select | reversi/include/mcts.h:67-98 | Returns (-1, -1) exactly when the node has no legal cell. Otherwise returns the first legal cell in row-major order of largest UCT score. |
| Mcts.MCTS.CollectCandidates | reversi/include/mcts.h:119-125 | The buffer's first `cnt` entries are the legal cells in row-major order. |
| Mcts.MCTS.SimulateOnce | reversi/include/mcts.h:100-140 | The result and the new draw count are those of the playout from the node's board with the node's player to move. |
| Mcts.MCTS.PlayStep | reversi/include/mcts.h:119-138 | One loop turn on an undecided board: continuing from the new board with the other player is the same playout. The termination measure decreases. |
| Mcts.MCTS.Simulate | reversi/include/mcts.h:32-40 | The result is the sum of 10 consecutive playouts divided by 10, and lies in [-1, 1]. |
| Mcts.MCTS.Descend | reversi/include/mcts.h:160-175 | One turn of the descent: either the selected slot was empty and is now the new node, or the tree is unchanged and the walk moves to the selected child. |
| Mcts.MCTS.Evaluate | reversi/include/mcts.h:168-172 | The new node's mean playout outcome, in [-1, 1], is backed up from it. |
| Mcts.MCTS.RunOnce | reversi/include/mcts.h:157-177 | A run selects down from the root to a node whose selected slot is empty, expands it, and backs up the mean playout outcome from the new node. The tree gains exactly one node, visited once, and the root gains one visit. |
| Mcts.MCTS.Search | reversi/include/mcts.h:152-155 | After `num_runs` runs (none when not positive), the tree and the root's visit count have grown by that many. The answer is the root's selection with c = 0. |

## Left out

- `reversi/src/main.cc` (input, output, the turn loop, `exit` on an illegal engine move) is not part of this model. Only its opening position is used, as the fixture `Opening`.
- `Chessboard::Debug` and `Chessboard::SetMemory` (console rendering and a raw byte copy) are not modelled.
- `reversi/include/chessboard.h` is not part of this model. The board layout is declared here:
  - `At(who, x, y) = data_[who·64 + 8x + y]`;
  - `CHESSBOARD_SIZE = 8`;
  - `DIRS` = (0, 1), (1, 0), (1, 1), (1, -1).
- Chessboard.Place requires 0 ≤ x, y < 8. The target cell is not bounds-checked (reversi/src/chessboard.cc:31, 56). Some out-of-range coordinates alias another cell: (0, 8) indexes `data_[8]` and `data_[72]`, which are cell (1, 0). So `Place(c, 0, 8, out)` can succeed and put c's stone on (1, 0). Other out-of-range coordinates index outside `data_`. Every caller reachable from `main` passes in-range cells. The unused `User` player (reversi/src/main.cc:22-23) would pass unchecked `scanf` values.
- Minimax.MinimaxTreeNode.Search takes a `nat` depth. A negative `int` depth passed to `MinimaxTree::Search` wraps to a huge `uint32_t`, and that is not modelled. 32-bit overflow cannot occur because every value lies in [-64, 64].
- The unused `father_` of `MinimaxTreeNode` is left out.
- `unique_ptr` ownership and `father_` pointers in the Monte Carlo tree are replaced by indices into an arena that only grows.
- Mcts.MCTS.Select: the UCT formula (`std::log`, `std::pow` on doubles) is an abstract function of the exploration constant, the node's visits and the child's statistics.
  - The starting value `lowest()` is modelled as "no score yet".
  - inf and NaN scores are not modelled. At a node that was never visited, `std::log(0)` is -inf, so an unexpanded cell scores NaN for c = 0 and -inf for c < 0. This happens at the root in the first run, or in `Search` with `num_runs` ≤ 0.
  - Mcts.MCTS.Select and Mcts.MCTS.Search ensure the first strict maximum (`FirstMax`). The source differs when every legal cell scores NaN or -inf: `uct > max_uct` never fires and `Select` returns the value-initialised `ans` = (0, 0), whether or not (0, 0) is legal.
- `double` arithmetic in `sigma_q_` and `Simulate` is modelled as exact `real` arithmetic.
- Mcts.MCTS.SimulateOnce: the thread-local `std::mt19937` seeded from the thread id is an abstract sequence `rng`. The k-th pick takes candidate `rng(k) % count`. The distribution's uniformity and the thread isolation are not modelled.
- Mcts.MCTS.Expand requires a legal cell or the pass. Given an illegal cell, the source would store a child built from an unwritten output board. `RunOnce` only passes what `Select` returns. That is a legal cell or the pass, except in the NaN / -inf case under Mcts.MCTS.Select above.
- Mcts.MCTS.Search states only the size of the tree, the root's visit count and the final selection. Each run is specified by Mcts.MCTS.RunOnce, but the sequence of runs is not restated as one relation.
- Chessboard.ScanLine, Chessboard.Probe, Chessboard.FlipRay, Chessboard.ApplyTo, Chessboard.ProbeCell, Minimax.MinimaxTreeNode.Scan, Minimax.MinimaxTreeNode.ScanRow, Minimax.MinimaxTreeNode.ExpandCell, Minimax.MinimaxTreeNode.SearchChild, Minimax.MinimaxTreeNode.BuildChild, Minimax.MinimaxTree.FindMove, Mcts.MCTS.CollectCandidates, Mcts.MCTS.PlayStep, Mcts.MCTS.Descend and Mcts.MCTS.Evaluate are the source's inline loops and steps written as methods of their own. They add no behaviour.
