# caro-ai in Dafny

A model of the engine of caro-ai, a five-in-a-row (caro, gomoku) player that
searches with Monte-Carlo tree search. The model covers four parts:

- The board of `src/board/mod.rs`:
  - placing a stone, with its bounds, its turn order and its two memo caches (the game result and the two forced-move lists);
  - the bounded win rule;
  - the move generator `actions`;
  - the run heuristic;
  - `place_random` with its draws passed in.
- The threat-pattern matcher `get_forced` of `src/board/patterns.rs` and its template tables.
- The bookkeeping of the search tree in `src/mcts.rs`: expand, update and back-propagation, select, the iteration loop and the best-move choice of `monte_carlo`, and `apply_move`.
- `parse_move` of `src/main.rs` and the main loop's conversion of 1-based digits to a 0-based move.

Modules, one per file:

| file | module | what it holds |
|---|---|---|
| wrappers.dfy | `Wrappers` | `Option`, `Result` |
| cells.dfy | `Cells` | `BoardValue`, `Player`, `Move`, `PlacingError`, `GameResult` and their small functions |
| patterns.dfy | `Patterns` | the template tables, `get_forced` as a function (`GetForcedSpec`) and as a loop (`GetForced`) |
| board_spec.dfy | `BoardSpec` | the board as a value (`BoardState`) and every board operation as a function from the old value to the result and the new value |
| board.dfy | `BoardEngine` | class `Board`: an array grid and fields updated in place; each method is proved to do what the `BoardSpec` function does |
| mcts_spec.dfy | `MctsSpec` | the search tree as an arena of nodes, the tree invariant `TreeOk`, and every tree operation as a function |
| mcts.dfy | `Mcts` | class `SearchTree`: the arena and the root index as fields; each method is proved equal to its `MctsSpec` function and to keep `TreeOk` |
| main.dfy | `MoveInput` | `parse_move` as written and as corrected, and the 1-based conversion |

Randomness is passed in as parameters:

- `coin(c, i)` is the bit `get_forced` call `c` draws at window offset `i`.
- `pick` is an index taken modulo the length of the list it picks from.
- `score(i, c)` is the UCB1 value of child `c` of node `i`, with its random threat bonus.
- `util` is the total utility of one iteration's playouts.
- `reject[t]` is the 90 % rejection draw of `place_random`'s round `t`.

The Rust `Rc<RefCell<Node>>` tree becomes a sequence of nodes in which a node names its children by index and always comes before them.

The grid is `height` rows of `width` cells, read as `grid[y][x]`. The source allocates `(width, height)` and indexes `[[y, x]]`, so the two agree on the square boards the program builds (15 × 15).

Two behaviours of the code worth knowing:

- `place` drops both forced caches when the mover's cached list is empty or *contains* the move, and keeps them otherwise (`src/board/mod.rs:167-177`). `BoardSpec.RetainedForcedMayBeOccupied` shows the consequence: `actions` can then offer an occupied cell, which the `expect` in `expand` turns into a stop.
- In `heuristic` a stone of the other colour does not end a run, and a line end does not score the runs (`src/board/mod.rs:557-605`). Only an empty cell and the one empty cell after each pass score and reset the runs (`BoardSpec.InterruptedRunStillCounts`).

## Model

| member | source | states |
|---|---|---|
| Cells.Opposite | src/board/mod.rs:14-20 | an empty cell has no opposite; a stone's opposite is the other stone |
| Cells.OppositeInvolution | src/board/mod.rs:14-20 | the opposite of the opposite of a stone is the stone, and it is the stone of the other player |
| Cells.PlayerOf | src/board/mod.rs:22-28 | an empty cell has no owner; a stone's owner places that stone |
| Cells.StoneOwner | src/board/mod.rs:22-52 | the owner of a player's stone is that player |
| Cells.Stone | src/board/mod.rs:47-52 | a player's stone is never an empty cell |
| Cells.Next | src/board/mod.rs:53-58 | the next player is the other player |
| Cells.Win | src/board/mod.rs:98-103 | a win is a terminal result and not a draw |
| Cells.IsTerminate | src/board/mod.rs:89-97 | is_terminate as a predicate on GameResult; its meaning is stated by the contracts of `Cells.Win` and `Cells.Utility` (a payoff exists exactly for a terminal result) |
| Cells.Utility | src/board/mod.rs:104-118 | a payoff exists exactly for the three terminal results: 1 for the winner, 0 for the loser, one half for a draw |
| Cells.UtilityZeroSum | src/board/mod.rs:104-118 | the two players' payoffs of a finished game add up to one |
| Patterns.TablesWellFormed | src/board/patterns.rs:30-39 | THREE, FOUR1 and FOUR5 have flag rows as long as their target rows and force only non-target cells; they force 1/4, 1/2 and 2/2 attacker/defender cells |
| Patterns.Four5WellFormed | src/board/patterns.rs:55-59 | FOUR5 is well formed and forces two attacker and two defender cells |
| Patterns.DisabledTablesWellFormed | src/board/patterns.rs:40-54 | the unused FOUR2 to FOUR4 are well formed too |
| Patterns.TargetMask | src/board/patterns.rs:65-72 | the mask has one entry per cell, true exactly where the cell holds the target colour |
| Patterns.Picks | src/board/patterns.rs:81-90 | one forced move per set flag |
| Patterns.PicksFlagged | src/board/patterns.rs:81-90 | every forced move is the coordinate of a flagged window cell |
| Patterns.MatchAtSpec | src/board/patterns.rs:73-107 | a match happens exactly when the window holds no opposing stone and its target cells read as the template forwards or backwards; it needs the whole template inside the area; the lists are the flagged cells of the window read forwards when that reading matches and of the reversed window otherwise, as many as the template flags, all empty cells of the area |
| Patterns.MatchAt | src/board/patterns.rs:73-107 | one check_pat! step at window offset i, forward or reversed; its contract is in `MatchAtSpec` (when it matches, and exactly which moves it forces) |
| Patterns.OffsetMatchSpec | src/board/patterns.rs:109-118 | a match at one offset forces one or two attacker cells and one to four defender cells, all empty cells of the area |
| Patterns.OffsetMatch | src/board/patterns.rs:109-118 | the three template checks at one offset, THREE gated by the coin; its contract is in `OffsetMatchSpec` |
| Patterns.GetForcedFromSpec | src/board/patterns.rs:109-119 | at most two attacker and four defender moves, all empty cells of the area; both lists are empty exactly when no offset matches |
| Patterns.GetForcedFrom | src/board/patterns.rs:109-119 | the offset loop of get_forced from offset i, stopping at the first match; its contract is in `GetForcedFromSpec` and `FirstMatchWins` |
| Patterns.GetForcedSpec | src/board/patterns.rs:61-120 | get_forced on a whole area; its contract is in `GetForcedFromSpec`, and the loop `GetForced` is proved equal to it |
| Patterns.FirstMatchWins | src/board/patterns.rs:91-118 | the result is that of the first matching offset; no later offset contributes |
| Patterns.CollectForced | src/board/patterns.rs:81-90 | the push loop collects exactly the attacker and defender picks of the window |
| Patterns.CheckPattern | src/board/patterns.rs:73-107 | one check_pat! step finds a match exactly when `MatchAt` does, with the same lists |
| Patterns.GetForced | src/board/patterns.rs:61-120 | the loop returns what `GetForcedSpec` specifies: THREE only when the coin is true, then FOUR1, then FOUR5, at ascending offsets |
| Patterns.OpenThreeForcesFlanks | src/board/patterns.rs:30-34 | an open three of X forces the defender onto both flanking pairs and the attacker onto the extension cell |
| BoardSpec.NewBoard | src/board/mod.rs:138-154 | a new board is empty and well formed, X to move, no last move, "not terminated" and both caches holding empty lists |
| BoardSpec.Widen | src/board/mod.rs:197-202 | the widened box covers the new point |
| BoardSpec.RescanSpec | src/board/mod.rs:215-225 | the rescan sees no stone exactly when the grid is empty, and otherwise ends with a box on the board covering every stone |
| BoardSpec.RescanColumnSpec | src/board/mod.rs:215-225 | the rescan of one column sees no stone exactly when the column prefix is empty, covers every stone it sees, keeps the box it started from and stays on the board |
| BoardSpec.RescanColumn | src/board/mod.rs:215-225 | the inner y loop of the rescan in update_bounds; its contract is in `RescanColumnSpec` |
| BoardSpec.Rescan | src/board/mod.rs:215-225 | the full-grid rescan of update_bounds from column x on; its contract is in `RescanSpec` and `RescanMakesBoxValid` |
| BoardSpec.RescanMakesBoxValid | src/board/mod.rs:215-230 | update_bounds without a last move always leaves a valid box |
| BoardSpec.PlaceSpec | src/board/mod.rs:156-187 | OutOfBounds exactly off the board (checked first), Occupied exactly on a stone; a success writes the mover's stone at m and nothing else, passes the turn, records m, applies the forced-cache rule, collapses or widens the box, and forgets a non-terminal result |
| BoardSpec.ForcedAfter | src/board/mod.rs:167-177 | the forced-cache rule of place: both caches dropped when the mover's list is empty or contains the move, kept otherwise; its consequences are in `PlaceSpec` and `RetainedForcedMayBeOccupied` |
| BoardSpec.TryPlace | src/board/mod.rs:156-187 | place as a function from the board to the new board or the placement error; its contract is in `PlaceSpec`, `PlacedStoneCounts` and `PlacePreservesWf` |
| BoardSpec.PlacedStoneCounts | src/board/mod.rs:166 | a placement adds one stone of the mover and none of the other colour |
| BoardSpec.PlacePreservesWf | src/board/mod.rs:156-213 | a successful placement keeps the board invariant (box covers the stones, caches paired, last move a stone, stone counts alternating) |
| BoardSpec.PlacedBoxValid | src/board/mod.rs:189-213 | after a placement the box still contains every stone |
| BoardSpec.BoundsAfter | src/board/mod.rs:189-213 | update_bounds after a placement: the first one collapses the default box to the move, later ones widen it; its contract is in `PlacedBoxValid` and `PlacePreservesWf` |
| BoardSpec.MoverParity | src/board/mod.rs:166-179 | X is to move exactly when the number of stones is even |
| BoardSpec.PlaceIgnoresCaches | src/board/mod.rs:156-187 | the caches do not influence whether or where a move can be placed |
| BoardSpec.Probe | src/board/mod.rs:454-457 | a cell is read exactly when add_with_limit keeps both coordinates on the board |
| BoardSpec.RayFromSpec | src/board/mod.rs:459-478 | count_ray counts the run of v from step k, at most up to step 5; it is blocked exactly when the first other cell is the edge or an opposing stone; a ray of five stones is not blocked |
| BoardSpec.RayFrom | src/board/mod.rs:443-479 | the loop of count_ray from step k, as a recursive function; its contract is in `RayFromSpec` |
| BoardSpec.RayLength | src/board/mod.rs:443-479 | a ray along which exactly b cells hold v counts min(b, 5) and is blocked exactly when it is cut short by the edge or an opposing stone |
| BoardSpec.Ray | src/board/mod.rs:443-479 | count_ray from the first step: the run length and whether it is blocked; its contract is in `RayLength` and `RayFromSpec` |
| BoardSpec.RaysWinRule | src/board/mod.rs:494-499 | check_dir's verdict: a run longer than five, or exactly five and not closed at both ends |
| BoardSpec.CheckDirIsRunRule | src/board/mod.rs:481-500 | the direction wins exactly for a run of more than five, or of five not closed at both ends by the edge or an opposing stone (an empty cell does not close) |
| BoardSpec.CheckDir | src/board/mod.rs:481-500 | check_dir: the two rays of one direction and the win rule on their counts; its contract is in `RaysWinRule` and `CheckDirIsRunRule` |
| BoardSpec.CheckAllDirCases | src/board/mod.rs:502-536 | check_all_dir holds exactly when the row, the column or one of the two diagonals wins |
| BoardSpec.CheckAllDir | src/board/mod.rs:502-536 | check_all_dir over the row, the column and the two diagonals; its contract is in `CheckAllDirCases` |
| BoardSpec.ScanColumnSpec | src/board/mod.rs:261-268 | the column scan finds a winner exactly when some stone of the column wins, and names its owner |
| BoardSpec.WinsAt | src/board/mod.rs:264-268 | a stone at (x, y) for which check_all_dir holds; used by `ScanColumnSpec` and `ScanFromSpec` |
| BoardSpec.ScanColumn | src/board/mod.rs:261-268 | the inner y loop of the full scan, skipping empty cells; its contract is in `ScanColumnSpec` |
| BoardSpec.ScanFromSpec | src/board/mod.rs:259-270 | the full scan finds a winner exactly when some stone wins, and names its owner |
| BoardSpec.ScanFrom | src/board/mod.rs:259-270 | the full scan from column x on; its contract is in `ScanFromSpec` |
| BoardSpec.IsFull | src/board/mod.rs:308-310 | is_board_full: no cell is empty; used by `EvaluateSpec` and `FullBoardDraws` (a full board is a draw), and the loop `BoardEngine.Board.IsBoardFull` is proved equal to it |
| BoardSpec.Evaluate | src/board/mod.rs:249-270 | the computed result is never "not calculated" |
| BoardSpec.EvaluateSpec | src/board/mod.rs:249-270 | a full board is a draw before any win check; with a last move the game is won exactly when that stone completes a run, by its owner; without one, exactly when some stone does |
| BoardSpec.CalculateGameResult | src/board/mod.rs:237-271 | a memoised result is returned unchanged; otherwise the computed result is memoised and nothing else changes |
| BoardSpec.FullBoardDraws | src/board/mod.rs:249-251 | a full board with no memoised result pays one half, even if it holds a winning run |
| BoardSpec.UtilityDefinedWhenTerminal | src/board/mod.rs:233-235 | utility is defined exactly for a finished game, with values 0, 1/2 or 1; a memoised terminal result is never recomputed |
| BoardSpec.UtilityFor | src/board/mod.rs:233-235 | Board::utility: the payoff of the memoised or computed result, and the board with the memo stored; its contract is in `UtilityDefinedWhenTerminal` and `FullBoardDraws` |
| BoardSpec.CellAt | src/board/mod.rs:387 | the area cell carries the board value at its own coordinates |
| BoardSpec.RowArea | src/board/mod.rs:382-391 | the row area is columns x-6 .. x+6 of row y, clipped to the board, in order, with the board's values |
| BoardSpec.ColumnArea | src/board/mod.rs:383-394 | the column area is rows y-6 .. y+6 of column x, clipped to the board, in order, with the board's values |
| BoardSpec.DiagonalUpToSpec | src/board/mod.rs:395-412 | the diagonal loops keep only on-board cells at offsets -5 .. 5 along the diagonal |
| BoardSpec.DiagonalArea | src/board/mod.rs:395-412 | a diagonal area holds at most 11 cells, all with the board's values |
| BoardSpec.DiagonalHoldsCentre | src/board/mod.rs:395-403 | a diagonal area contains the centre cell |
| BoardSpec.Areas | src/board/mod.rs:381-421 | four areas, each faithful to the board |
| BoardSpec.ExtendSpec | src/board/mod.rs:313-322 | extend keeps v as a prefix, adds exactly the elements of u and never duplicates |
| BoardSpec.Extend | src/board/mod.rs:313-322 | the nested extend of calculate_forced (append the elements of u not yet in v); its contract is in `ExtendSpec` |
| BoardSpec.ForcedScanSpec | src/board/mod.rs:332-348 | the scan only appends, never duplicates, and adds only empty cells of the board |
| BoardSpec.ForcedScan | src/board/mod.rs:332-348 | the loop of calculate_forced over the two target colours and the four areas of the last move, extending both lists; its contract is in `ForcedScanMembers` (which moves each list gets) and `ForcedScanSpec` (order, no duplicates, empty cells) |
| BoardSpec.CallForced | src/board/mod.rs:335-336 | the attacker and defender moves of the c-th get_forced call: target X over the four areas, then target O; its contract is in `GetForcedFromSpec` |
| BoardSpec.XShare | src/board/mod.rs:337-346 | the part of a call that goes to X's list: the attacker moves for target X, the defender moves for target O; used by `ForcedScanMembers` |
| BoardSpec.OShare | src/board/mod.rs:337-346 | the part of a call that goes to O's list, the other half; used by `ForcedScanMembers` |
| BoardSpec.ForcedScanMembers | src/board/mod.rs:332-348 | from call c on, a move ends in X's list exactly when it was already there or is in the X share of some call c .. 7, and likewise for O's list with the O shares |
| BoardSpec.Forced | src/board/mod.rs:312-374 | calculate_forced changes only the caches, leaves the returned list cached for the mover, changes nothing when the mover's list is cached, and otherwise fills both caches |
| BoardSpec.FreshForcedSpec | src/board/mod.rs:329-355 | freshly computed forced lists hold each move once and only empty cells of the board |
| BoardSpec.FreshForcedMembers | src/board/mod.rs:329-355 | freshly computed, X's cached list holds exactly the attacker moves of the calls for target X and the defender moves of the calls for target O, O's list the other halves; both lists are empty when no stone has been placed |
| BoardSpec.FreshForced | src/board/mod.rs:329-355 | the two forced lists computed from scratch, each call routed by its target colour; its contract is in `FreshForcedMembers`, `FreshForcedSpec` and `Forced` |
| BoardSpec.ForcedPreservesWf | src/board/mod.rs:312-374 | calculate_forced keeps the board invariant |
| BoardSpec.AreThereThreats | src/board/mod.rs:375-379 | true exactly when both cached lists are non-empty after calculate_forced |
| BoardSpec.RowCellsSpec | src/board/mod.rs:434-438 | the row scan holds exactly the empty cells of the row segment, left to right |
| BoardSpec.RowCells | src/board/mod.rs:434-438 | the inner x loop of actions; its contract is in `RowCellsSpec` |
| BoardSpec.BoxCellsSpec | src/board/mod.rs:433-439 | the box scan holds exactly the empty cells of the rectangle, in row-major order |
| BoardSpec.BoxCells | src/board/mod.rs:433-439 | the y loop of actions; its contract is in `BoxCellsSpec` |
| BoardSpec.BoxActions | src/board/mod.rs:428-440 | the fallback of actions: the box grown by one, clipped to the board; its contract is in `ActionsSpec` and `BoxCellsSpec` |
| BoardSpec.Actions | src/board/mod.rs:423-441 | actions leaves the board as calculate_forced does |
| BoardSpec.ActionsSpec | src/board/mod.rs:423-441 | a non-empty forced list is returned as it is; otherwise exactly the empty cells of the box grown by one and clipped to the board, in row-major order |
| BoardSpec.ActionsRepeat | src/board/mod.rs:324-328 | a second call of actions returns the same list from the cache and changes nothing |
| BoardSpec.FreshActionsArePlaceable | src/board/mod.rs:423-441 | actions computed without a cached list can all be placed |
| BoardSpec.RetainedForcedMayBeOccupied | src/board/mod.rs:167-177 | a retained cache can make actions offer an occupied cell, which place refuses |
| BoardSpec.Weight | src/board/mod.rs:544-550 | a run scores only for lengths 2 to 4, at most 4 |
| BoardSpec.FoldBound | src/board/mod.rs:557-566 | a colour's run plus total never grows by more than its stones visited |
| BoardSpec.Step | src/board/mod.rs:557-566 | the update closure of heuristic on one value; its behaviour is in `FoldBound` and `InterruptedRunStillCounts` |
| BoardSpec.Fold | src/board/mod.rs:557-566 | update applied to each value of a sequence in order; its contract is in `FoldBound`, `FoldSnoc` and `AbsentScoresZero` |
| BoardSpec.RowsVisit | src/board/mod.rs:568-572 | the cells of the horizontal pass, row by row; `AbsentScoresZero` uses its `RowsAvoid` lemma and `BoardEngine.Board.RowsPass` is proved equal to it |
| BoardSpec.ColumnsVisit | src/board/mod.rs:576-580 | the cells of the vertical pass, column by column; `AbsentScoresZero` uses its `ColumnsAvoid` lemma and `BoardEngine.Board.ColumnsPass` is proved equal to it |
| BoardSpec.FinalTally | src/board/mod.rs:538-606 | the run counters after the four passes of heuristic; its contract is in `FoldBound`, `AbsentScoresZero` and `InterruptedRunStillCounts` |
| BoardSpec.Totals | src/board/mod.rs:538-606 | the two totals x_h and o_h of heuristic; their bounds are in `FoldBound` and `AbsentScoresZero`, and their share in `HeuristicValue` and `HeuristicComplement` |
| BoardSpec.Diag1LineStep | src/board/mod.rs:584-592 | the first diagonal pass visits (x, k - x) for x ascending, skipping rows off the board |
| BoardSpec.Diag1Line | src/board/mod.rs:584-592 | the cells of one line of the first diagonal pass; its contract is in `Diag1LineStep` |
| BoardSpec.Diag2LineStep | src/board/mod.rs:596-604 | the second diagonal pass visits (width-1-i, k - i), skipping rows off the board |
| BoardSpec.Diag2Line | src/board/mod.rs:596-604 | the cells of one line of the second diagonal pass; its contract is in `Diag2LineStep` |
| BoardSpec.Lines | src/board/mod.rs:584 | width + height - 1, the number of lines of each diagonal pass; used by `AbsentScoresZero` and `BoardEngine.Board.DiagonalPass` |
| BoardSpec.AbsentScoresZero | src/board/mod.rs:538-605 | a colour with no stone on the board scores nothing |
| BoardSpec.InterruptedRunStillCounts | src/board/mod.rs:557-566 | X, O, X, empty scores a run of two for X |
| BoardSpec.HeuristicValue | src/board/mod.rs:608-613 | the heuristic value lies in [0, 1] |
| BoardSpec.Share | src/board/mod.rs:608-613 | a share lies in [0, 1] and is 1 exactly when the other total is 0 |
| BoardSpec.HeuristicComplement | src/board/mod.rs:608-613 | the two players' values add up to one; X gets 1 when O has no stone |
| BoardSpec.EmptyNeighboursUpToSpec | src/board/mod.rs:282-300 | at most one count per offset, and all of them exactly when each neighbour is on the board and empty |
| BoardSpec.EightMeansIsolated | src/board/mod.rs:281-301 | the count is 8 exactly when all eight neighbours are on the board and empty |
| BoardSpec.EmptyNeighbours | src/board/mod.rs:281-300 | the empty on-board neighbours counted by place_random; its contract is in `EmptyNeighboursUpToSpec`, `EightMeansIsolated` and `EdgeNeverIsolated` |
| BoardSpec.EdgeNeverIsolated | src/board/mod.rs:287-295 | an edge cell never counts 8 |
| BoardSpec.PlaceRandomFromSpec | src/board/mod.rs:273-307 | FullBoard exactly when actions is empty; a success placed one of the actions; another error is the placement error of one of the actions, with only the caches changed |
| BoardSpec.PlaceRandomFrom | src/board/mod.rs:273-307 | the rounds of place_random from round t on, each drawing a pick and, at eight empty neighbours, a rejection draw; its contract is in `PlaceRandomFromSpec` |
| BoardSpec.PlaceRandom | src/board/mod.rs:273-307 | place_random: actions, then the rounds from the first; its contract is in `PlaceRandomFromSpec` and `PlaceRandomFreshSucceeds` |
| BoardSpec.PlaceRandomFreshSucceeds | src/board/mod.rs:273-307 | with no cached forced list, place_random places a stone or reports FullBoard |
| BoardEngine.Board.constructor | src/board/mod.rs:138-154 | the new object reads as `NewBoard` |
| BoardEngine.Board.Place | src/board/mod.rs:156-187 | succeeds exactly when `TryPlace` does; an error leaves every field as it was; a success leaves the board `TryPlace` gives; the invariant is kept |
| BoardEngine.Board.PlaceStone | src/board/mod.rs:165-186 | the success path ends in the board `TryPlace` gives |
| BoardEngine.Board.WriteStone | src/board/mod.rs:166-180 | the stone, the cache rule, the turn and the last move |
| BoardEngine.Board.UpdateBounds | src/board/mod.rs:189-231 | the box collapses to or widens to the last move, or is recomputed without one |
| BoardEngine.Board.RecomputeBounds | src/board/mod.rs:215-230 | the box after the rescan and its empty-grid fall-back |
| BoardEngine.Board.RescanGrid | src/board/mod.rs:215-225 | the column-by-column rescan ends with `Rescan` of the grid |
| BoardEngine.Board.IsBoardFull | src/board/mod.rs:308-310 | true exactly when no cell is empty |
| BoardEngine.Board.CountRay | src/board/mod.rs:443-479 | the counter and blocked flag are those of `Ray` |
| BoardEngine.Board.ProbeCell | src/board/mod.rs:454-465 | the cell read, or none off the board |
| BoardEngine.Board.CheckDirection | src/board/mod.rs:481-500 | check_dir's verdict is `CheckDir` |
| BoardEngine.Board.CheckAllDirections | src/board/mod.rs:502-536 | check_all_dir's verdict is `CheckAllDir` |
| BoardEngine.Board.ScanForWin | src/board/mod.rs:259-269 | the owner of the first winning stone, column by column |
| BoardEngine.Board.CalculateGameResult | src/board/mod.rs:237-271 | result and new state as `BoardSpec.CalculateGameResult` |
| BoardEngine.Board.Utility | src/board/mod.rs:233-235 | payoff and new state as `UtilityFor` |
| BoardEngine.Board.DiagonalCells | src/board/mod.rs:395-412 | the diagonal area |
| BoardEngine.Board.RowCellsAround | src/board/mod.rs:382-391 | the row area |
| BoardEngine.Board.ColumnCellsAround | src/board/mod.rs:383-394 | the column area |
| BoardEngine.Board.GetAreasFromPoint | src/board/mod.rs:381-421 | the four areas |
| BoardEngine.Board.ExtendWith | src/board/mod.rs:313-322 | the list `Extend` gives |
| BoardEngine.Board.CalculateForced | src/board/mod.rs:312-374 | list and new caches as `Forced`; the invariant is kept |
| BoardEngine.Board.ComputeForced | src/board/mod.rs:324-373 | list and new caches as `Forced` |
| BoardEngine.Board.ForcedLists | src/board/mod.rs:332-348 | the two lists `FreshForced` gives |
| BoardEngine.Board.AreThereThreats | src/board/mod.rs:375-379 | verdict and new caches as `BoardSpec.AreThereThreats` |
| BoardEngine.Board.BoxScan | src/board/mod.rs:428-440 | the empty cells of the grown box |
| BoardEngine.Board.RowScan | src/board/mod.rs:434-438 | the empty cells of one row segment |
| BoardEngine.Board.Actions | src/board/mod.rs:423-441 | list and new caches as `BoardSpec.Actions` |
| BoardEngine.Board.Heuristic | src/board/mod.rs:538-614 | a value exactly when the totals are not both zero, and then the player's share |
| BoardEngine.Board.HeuristicTotals | src/board/mod.rs:552-605 | the two totals `Totals` gives |
| BoardEngine.Board.RowsPass | src/board/mod.rs:567-572 | the tally after every row, left to right |
| BoardEngine.Board.RowPass | src/board/mod.rs:569-571 | the tally after one row |
| BoardEngine.Board.ColumnsPass | src/board/mod.rs:575-580 | the tally after every column, top to bottom |
| BoardEngine.Board.ColumnPass | src/board/mod.rs:577-579 | the tally after one column |
| BoardEngine.Board.DiagonalPass | src/board/mod.rs:583-604 | the tally after all lines of one diagonal pass |
| BoardEngine.Board.DiagLinePass | src/board/mod.rs:584-604 | the tally after one diagonal line |
| BoardEngine.Board.Diag1Pass | src/board/mod.rs:585-591 | the tally after one first-kind line |
| BoardEngine.Board.Diag2Pass | src/board/mod.rs:597-603 | the tally after one second-kind line |
| BoardEngine.Board.CountEmptyNeighbours | src/board/mod.rs:281-300 | the empty on-board neighbours |
| BoardEngine.Board.PlaceRandom | src/board/mod.rs:273-307 | result and new board as `BoardSpec.PlaceRandom`; the invariant is kept |
| MctsSpec.NewTreeOk | src/mcts.rs:152-156 | a one-node tree of a well-formed board keeps the tree invariant |
| MctsSpec.NewRoot | src/mcts.rs:23-31 | Node::new_root: the board, no children, no move, zero statistics; `NewTreeOk` proves the one-node tree satisfies the tree invariant |
| MctsSpec.IsLeaf | src/mcts.rs:33-35 | is_leaf: no children; used by `ExpandLeafSpec`, `ExpandInnerSpec` and `SelectFromSpec` (a selected path ends at a leaf) |
| MctsSpec.Placements | src/mcts.rs:42-45 | one placement per action, each on a copy of the same board |
| MctsSpec.KidsSpec | src/mcts.rs:41-55 | the loop succeeds exactly when every action can be placed, and then makes one child per action in order (placed board, the move, no playouts); otherwise it fails with the first error |
| MctsSpec.Kids | src/mcts.rs:41-55 | the child-making loop of expand over the first k actions; its contract is in `KidsSpec` and `KidsStay` |
| MctsSpec.KidsStay | src/mcts.rs:43-45 | once a placement has failed the loop keeps that error |
| MctsSpec.Grow | src/mcts.rs:41-55 | the new children are appended after the old nodes and listed by the leaf in order; no other node changes |
| MctsSpec.ExpandLeafSpec | src/mcts.rs:38-58 | on a leaf: success exactly when there are actions and all can be placed; one child per action, in order, each the placed board with its move and no playouts; other nodes unchanged; the result is a new child; an error leaves the arena as it was |
| MctsSpec.Expand | src/mcts.rs:38-58 | Node::expand on node i of the arena; its contract is in `ExpandLeafSpec`, `ExpandInnerSpec`, `ExpandGrows` and `ExpandKeepsTree` |
| MctsSpec.AttachSpec | src/mcts.rs:53-57 | no children is an error (the empty random range); otherwise the picked node is one of the new children |
| MctsSpec.Attach | src/mcts.rs:53-57 | the end of expand: the children join the arena and the random index picks one; its contract is in `AttachSpec` |
| MctsSpec.ExpandInnerSpec | src/mcts.rs:40-57 | a node with children changes nothing and returns one of them |
| MctsSpec.ExpandIdempotent | src/mcts.rs:38-58 | once expanded, expanding again with any draws adds nothing and returns a child |
| MctsSpec.FreshLeafExpands | src/mcts.rs:41-45 | a leaf with no cached forced list expands without error whenever it has actions |
| MctsSpec.ChildStatesWf | src/mcts.rs:42-45 | every child board is well formed |
| MctsSpec.ExpandKeepsTree | src/mcts.rs:38-58 | expansion keeps the tree invariant |
| MctsSpec.GrowKeepsTree | src/mcts.rs:41-55 | adding fresh childless children to a leaf keeps the tree invariant |
| MctsSpec.ExpandPicksChild | src/mcts.rs:57 | the returned node is a child of the expanded node |
| MctsSpec.ExpandGrows | src/mcts.rs:38-58 | expanding a leaf returns a new childless node without playouts and changes no other old node or the leaf's statistics |
| MctsSpec.BackProp | src/mcts.rs:202-207 | back-propagation keeps the arena's size |
| MctsSpec.BackPropSpec | src/mcts.rs:95-99 | on a path without repeats, each node of the path gets n more playouts and util more utility, once; every other node is unchanged |
| MctsSpec.Update | src/mcts.rs:95-99 | Node::update adds n playouts and util utility; its effect along a path is in `BackPropSpec` |
| MctsSpec.BackPropKeepsTree | src/mcts.rs:202-207 | back-propagation along a root path keeps the invariant, including that a node has at least its children's playouts |
| MctsSpec.PickUpTo | src/mcts.rs:173-196 | a child is chosen exactly when there is one |
| MctsSpec.PickUpToSpec | src/mcts.rs:173-196 | the chosen child has a maximal score, and is the first such: no child beats it, it beats every earlier one |
| MctsSpec.Beats | src/mcts.rs:192 | the strict `ucb1 > max_ucb1` comparison, with infinity above every finite score; used by `PickUpToSpec` and `UnvisitedFirst` |
| MctsSpec.ChildScore | src/mcts.rs:177-186 | a child without playouts scores infinity, any other the drawn score; used by `PickUpToSpec` and `UnvisitedFirst` |
| MctsSpec.BestChild | src/mcts.rs:198 | select moves to a child of the node, further along the arena |
| MctsSpec.UnvisitedFirst | src/mcts.rs:177-178 | a child without playouts scores infinity, so select moves to the first unvisited child |
| MctsSpec.SelectFromSpec | src/mcts.rs:159-200 | the path starts at the node, goes from parent to best child, and ends at a leaf |
| MctsSpec.SelectFrom | src/mcts.rs:159-200 | select from node i down the best children; its contract is in `SelectFromSpec` |
| MctsSpec.IterateSpec | src/mcts.rs:111-130 | an iteration's path runs from the root to a leaf without playouts (the selected leaf itself, or its new child), every node of the path counts 16 more playouts and no other node's statistics change; an error leaves the tree as it was |
| MctsSpec.Iterate | src/mcts.rs:111-130 | one round of the monte_carlo loop: select, descend and back-propagate; its contract is in `IterateSpec`, `IterateKeepsTree` and `IterateCountsRoot` |
| MctsSpec.Descend | src/mcts.rs:113-128 | the leaf step of a round: simulate an unvisited leaf, or expand it and simulate the new child, then back-propagate; its contract is in `IterateSpec` |
| MctsSpec.IterateKeepsTree | src/mcts.rs:111-130 | every iteration keeps the tree invariant |
| MctsSpec.IterateCountsRoot | src/mcts.rs:128-129 | a completed iteration adds 16 playouts at the root |
| MctsSpec.Search | src/mcts.rs:111-130 | the loop keeps the tree invariant, and without error the root counts 16 playouts per round |
| MctsSpec.MostVisitedUpTo | src/mcts.rs:132-142 | the scan returns a position among the children scanned |
| MctsSpec.MostVisitedSpec | src/mcts.rs:132-142 | nothing exactly when no child has playouts; otherwise the first child with the most playouts |
| MctsSpec.ChildMoved | src/mcts.rs:149 | every child records a move, so the unwrap succeeds |
| MctsSpec.BestMoveVisited | src/mcts.rs:132-149 | when a child has playouts, the move is that of the first child with the most, and the tree is unchanged |
| MctsSpec.BestMove | src/mcts.rs:132-149 | the end of monte_carlo: the most-visited child, or an expansion of the root when none has playouts; its contract is in `BestMoveVisited` and `BestMoveUnvisited` |
| MctsSpec.BestMoveUnvisited | src/mcts.rs:143-149 | otherwise the root is expanded and the move is that of the child expansion returns |
| MctsSpec.FindMove | src/mcts.rs:214-221 | the found position lies among the children searched |
| MctsSpec.FindMoveSpec | src/mcts.rs:214-221 | the first child made by m, and nothing only when no child was made by m |
| MctsSpec.MoveToSpec | src/mcts.rs:214-235 | with a child made by m, the first such becomes the root and keeps its subtree and statistics; otherwise the tree restarts as one node holding the board with m placed, or reports the placement error unchanged |
| MctsSpec.MoveTo | src/mcts.rs:214-235 | the re-rooting of apply_move; its contract is in `MoveToSpec` and `MoveToKeepsTree` |
| MctsSpec.MoveToKeepsTree | src/mcts.rs:214-235 | the moved tree keeps the invariant at its new root |
| MctsSpec.PruneKeepsTree | src/mcts.rs:231-234 | moving the root to a child keeps the invariant |
| MctsSpec.ApplyMoveKeepsTree | src/mcts.rs:209-236 | an error leaves the tree unchanged; otherwise the invariant holds at the new root |
| MctsSpec.ApplyMove | src/mcts.rs:209-236 | apply_move: expand the root, then re-root; its contract is in `ApplyMoveKeepsTree` and `MoveToSpec` |
| Mcts.SearchTree.constructor | src/mcts.rs:152-156 | one root node holding the board; the invariant holds |
| Mcts.SearchTree.PickBest | src/mcts.rs:173-196 | the position `PickUpTo` chooses |
| Mcts.SearchTree.Select | src/mcts.rs:159-200 | the path `SelectFrom` gives |
| Mcts.SearchTree.Expand | src/mcts.rs:38-58 | result and arena as `MctsSpec.Expand`; the root stays |
| Mcts.SearchTree.ExpandLeaf | src/mcts.rs:40-57 | result and arena as `MctsSpec.Expand` on a leaf |
| Mcts.SearchTree.AttachChildren | src/mcts.rs:53-57 | result and arena as `Attach` |
| Mcts.MakeChildren | src/mcts.rs:41-55 | the children `Kids` gives, or its first error |
| Mcts.SearchTree.BackPropagation | src/mcts.rs:202-207 | the arena `BackProp` gives; the root stays |
| Mcts.SearchTree.Iterate | src/mcts.rs:112-129 | result and arena as `MctsSpec.Iterate`; the invariant is kept |
| Mcts.SearchTree.MostVisited | src/mcts.rs:132-142 | the position `MostVisitedUpTo` finds |
| Mcts.SearchTree.BestMove | src/mcts.rs:132-149 | move and arena as `MctsSpec.BestMove`; the invariant is kept |
| Mcts.SearchTree.MonteCarlo | src/mcts.rs:106-150 | the rounds as `Search`, then the best move; an error stops the search; the invariant is kept |
| Mcts.SearchTree.FindChild | src/mcts.rs:214-221 | the position `FindMove` finds |
| Mcts.SearchTree.ApplyMove | src/mcts.rs:209-236 | result, arena and root as `MctsSpec.ApplyMove`; the invariant is kept |
| Mcts.SearchTree.MoveRoot | src/mcts.rs:214-235 | result, arena and root as `MoveTo` |
| MoveInput.ByteLenBounds | src/main.rs:15 | a string has at least one byte per character, and one per character exactly when it is all ASCII |
| MoveInput.ByteLen | src/main.rs:15 | the UTF-8 byte length that `cmd.len()` returns; its contract is in `ByteLenBounds` |
| MoveInput.ToDigitSpec | src/main.rs:21-22 | a character is digit d exactly when d is below the radix and the character is d's digit or upper-case letter |
| MoveInput.ToDigit | src/main.rs:21-22 | char::to_digit; its contract is in `ToDigitSpec` and `DigitRoundTrip` |
| MoveInput.DigitRoundTrip | src/main.rs:21-22 | every digit below the radix has a character that reads back as it |
| MoveInput.ParseMoveAsWrittenPanics | src/main.rs:15-22 | "é" passes the byte-length check and panics at the second character |
| MoveInput.ParseMoveAsWritten | src/main.rs:14-28 | parse_move as written, with its byte-length check and its panic; its behaviour is in `ParseMoveAsWrittenPanics` and `ParseMoveAsWrittenPanicsExactly` |
| MoveInput.ParseMoveAsWrittenPanicsExactly | src/main.rs:15-22 | parse_move panics exactly on one two-byte character |
| MoveInput.ParseMoveAgrees | src/main.rs:14-28 | the corrected parser accepts exactly what the original accepts, with the same digits, and reports the wrong length exactly when the input is not two characters |
| MoveInput.ParseMoveSpec | src/main.rs:20-27 | a parsed move is two digits, each at most 15 and read from its character |
| MoveInput.ParseMove | src/main.rs:14-28 | parse_move as corrected (a character count); its contract is in `ParseMoveSpec` and `ParseMoveAgrees` |
| MoveInput.EveryCellTypable | src/main.rs:58-61 | every cell of the 15 × 15 board can be typed as its 1-based digits and converts back to itself |
| MoveInput.OneBased | src/main.rs:58-61 | checked_sub(1).unwrap_or(limit) on one digit; its contract is in `EveryCellTypable` and `ZeroDigitIsOffBoard` |
| MoveInput.ToMove | src/main.rs:58-61 | the move built from the two 1-based digits; its contract is in `EveryCellTypable` and `ZeroDigitIsOffBoard` |
| MoveInput.ZeroDigitIsOffBoard | src/main.rs:58-61 | placing a converted move is refused as out of bounds exactly when a digit is 0 |

## Left out

- `Node::simulate` (`src/mcts.rs:61-93`) is not modelled: it runs playouts on threads and sums them over a channel. An iteration takes the total utility of its playouts as the parameter `util`. The 16 playouts are still counted.
- The clock of `monte_carlo` (`src/mcts.rs:107-111`) and the time-limit schedule of `main` (`src/main.rs:74`) are not modelled. The loop runs once per element of `rounds`.
- The "Games simulated" message is left out.
- Floating point is not modelled. `u` and the utilities are reals. UCB1 with its threat bonus (`src/mcts.rs:173-185`) is the oracle `score`, a real or infinity for a child without playouts, so NaN is not modelled. The start value `f32::MIN` of the maximum is not modelled: every score exceeds it, so the first child is always a candidate.
- The `are_there_threats` call inside select's score (`src/mcts.rs:183`) memoises forced lists in the child boards. That is a side effect on the caches that the oracle does not perform.
- MctsSpec.BackPropSpec: is stated for paths without repeats. Every path select and the iteration build has none (`Increasing`).
- The `Display` impls, the console loop of `main` (`src/main.rs:30-91`) and the colour codes are not modelled. Neither is `uuid`.
- The commented-out scan at `src/board/mod.rs:357-370` is dead code and is not modelled.
- The grid is `height` × `width`, read as `grid[y][x]`. The source's `(width, height)` array only matches that on square boards.
- A panic is modelled as an `Err` result with the tree unchanged. That covers the `expect` in `expand`, the empty random range in `expand` and the `unwrap` of `place` in `apply_move`.
- When `apply_move` moves to an existing child, the old arena is kept, with the old root's child list cleared. The source frees the old nodes.
- BoardSpec.PlaceRandom: follows the finite list `reject` of rejection draws, and accepts the draw once the list is exhausted. The source's loop is unbounded.
- BoardEngine.Board.Heuristic: returns no value where the source divides 0 by 0 and returns NaN. The weight `HEURISTIC_WEIGHT` belongs to `simulate` and is left out with it.
- BoardSpec.NewBoard: requires a width and height of at least 1. The source computes `width - 1` on a `usize` and would overflow on an empty board.
- Integer widths are not modelled: `usize` counters are unbounded naturals. The rescan's starting box uses `usize::MAX` explicitly.

## Findings

| source | as written | input that shows it | evidently intended | confidence | as-written member | corrected member |
|---|---|---|---|---|---|---|
| src/main.rs:15-22 | the length check counts UTF-8 bytes (`cmd.len() != 2`), then reads `chars[0]` and `chars[1]` | "é" (U+00E9): two bytes but one character, so `chars[1]` is out of range and the program panics | reject any input that is not exactly two characters with "Input must be exactly two characters" | not executed | MoveInput.ParseMoveAsWrittenPanics | MoveInput.ParseMoveAgrees |
