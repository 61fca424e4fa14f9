# 3D tic-tac-toe with explosions: rules engine and computer opponent

This project models the rules engine and the computer opponent of a 3D N×N×N
tic-tac-toe. A winning line is any of the 3N² + 6N + 4 rows, columns, pillars,
face diagonals and space diagonals of the cube. A maximal run of exactly three
pieces of one player explodes, along one of 13 directions, and takes with it
any opposing piece directly beyond either end of the run. In Gravity mode a
piece must rest on the floor or on another piece, and after an explosion the
pieces fall and chain reactions are cleared until none is left.

The opponent works in three steps. It takes an immediate win if one exists.
Otherwise it blocks the opponent's immediate win. Otherwise it runs an
alpha-beta minimax over moves sorted by position weight. The search places,
explodes and undoes moves in place on one working board.

The modules follow the two source files.
- Rules engine, `src/utils/gameLogic.ts`:
  - `Lines`: the winning lines.
  - `Rules`: the empty board, the winner, fullness, the empty cells and the legal moves.
  - `Gravity`: applyGravity.
  - `Explosions`: checkExplosion and checkAllExplosions.
  - `Cascade`: processGravityCascade.
- Opponent, `src/utils/ai.ts`:
  - `PositionWeighting`: the position weights.
  - `Heuristic`: evaluateBoard.
  - `Ordering`: the extended scores and the move sort.
  - `AlphaBeta`: minimax and getBestMove.
- Value types and the flat board: `Types` and `Grid`.

The board is one flat sequence of N³ cells. The cell (x, y, z) sits at index
(z·N + y)·N + x, so ascending index order is the z, y, x order of the source's
nested loops. Each triple loop over the board is therefore one loop over the
index. The board queries are functions. The operations that change state in
the source are methods, each proved equal to a specification function:
- applyGravity, the two explosion scans and the cascade (the cascade's
  specification is the ghost function `Cascade.CascadeFrom`: gravity, full-board
  scan, then stop or clear and record what was found and go round again);
- the weight table and the evaluation;
- the search's place, explode, recurse and undo on an `array<Cell>`.

The search itself is specified by mutually recursive functions. `Search`, `Visit` and
`Node` describe one position, `Loop` describes the alpha-beta loop over the
ordered moves, and `Try` describes one move. Each returns the score, the
contents the working board is left with, and an `exact` flag. The flag says
that no explosion in the subtree cleared an opposing piece.

In three places the code does less than one might expect, and the model
follows the code:
- checkExplosion keeps a cell that two directions both contribute twice. It
  does not merge duplicates.
- The full-board scan skips anchors that are already recorded
  (`src/utils/gameLogic.ts:231`). It is proved sound with respect to
  checkExplosion, free of duplicates, and to record every anchor whose own
  explosion is nonempty. It is not claimed equal to the union of checkExplosion
  over all occupied cells.
- The undo writes the mover's piece back onto every exploded cell
  (`src/utils/ai.ts:148`, `:204`, `:222`), including a bracketed opposing piece.
  The working board keeps which cells are occupied after every move. Its exact
  contents come back only when no opposing piece was bracketed, and
  `AlphaBeta.UndoExactIff` proves that this condition is also necessary.

## Model

| member | source | states |
|---|---|---|
| Types.Opponent | src/utils/ai.ts:112 | the opponent of a player is the other player |
| Rules.EmptyBoard | src/utils/gameLogic.ts:6-20 | createEmptyBoard gives a board of side N whose every cell is empty |
| Rules.EmptyBoardCells | src/utils/gameLogic.ts:6-20 | a fresh board lists all N³ cells as empty and is not full |
| Rules.EmptyBoardNoWinner | src/utils/gameLogic.ts:114-134 | a fresh board has no winner |
| Lines.AxisFamilySizes | src/utils/gameLogic.ts:30-61 | there are N² rows, N² columns and N² pillars |
| Lines.DiagonalFamilySizes | src/utils/gameLogic.ts:63-94 | each of the three plane families has 2N face diagonals |
| Lines.LineCountIs | src/utils/gameLogic.ts:23-112 | generateWinningLines returns exactly 3N² + 6N + 4 lines |
| Lines.RowsWellFormed | src/utils/gameLogic.ts:30-39 | every row has N in-bounds, pairwise distinct cells |
| Lines.ColumnsWellFormed | src/utils/gameLogic.ts:41-50 | every column has N in-bounds, pairwise distinct cells |
| Lines.PillarsWellFormed | src/utils/gameLogic.ts:52-61 | every pillar has N in-bounds, pairwise distinct cells |
| Lines.XYDiagonalsWellFormed | src/utils/gameLogic.ts:63-72 | every xy-plane diagonal has N in-bounds, pairwise distinct cells |
| Lines.XZDiagonalsWellFormed | src/utils/gameLogic.ts:74-83 | every xz-plane diagonal has N in-bounds, pairwise distinct cells |
| Lines.YZDiagonalsWellFormed | src/utils/gameLogic.ts:85-94 | every yz-plane diagonal has N in-bounds, pairwise distinct cells |
| Lines.SpaceDiagonalsWellFormed | src/utils/gameLogic.ts:96-108 | every space diagonal has N in-bounds, pairwise distinct cells |
| Lines.LinesWellFormed | src/utils/gameLogic.ts:23-112 | every winning line has length N, lies on the board and repeats no cell |
| Lines.LineWellFormed | src/utils/gameLogic.ts:23-112 | any single winning line is well formed |
| Rules.LineOwnerIsUniform | src/utils/gameLogic.ts:119-131 | the check of one line reports p exactly when every cell of the line holds p |
| Rules.WinnerFromSpec | src/utils/gameLogic.ts:118-133 | the scan from line k reports nothing exactly when no line is one player's, and otherwise the owner of the first such line |
| Rules.WinnerSpec | src/utils/gameLogic.ts:114-134 | checkWinner is null exactly when no winning line is entirely one player's, and otherwise the owner of the first such line in generation order |
| Rules.AtMostTwoPiecesNoWinner | src/utils/gameLogic.ts:114-134 | with N ≥ 3, a board holding pieces on at most two cells (such as an X and an O side by side) has no winner |
| Rules.EmptyCellsFromSpec | src/utils/gameLogic.ts:151-159 | the scan from index i lists exactly the empty cells at index i or later, in ascending index order |
| Rules.EmptyCells | src/utils/gameLogic.ts:148-161 | getEmptyCells lists only empty in-bounds cells, and every empty cell |
| Rules.EmptyCellsAscending | src/utils/gameLogic.ts:148-161 | the empty cells come in strictly ascending z, y, x order |
| Rules.FullIffNoEmptyCells | src/utils/gameLogic.ts:136-161 | isBoardFull holds exactly when getEmptyCells is empty |
| Rules.ValidMoveRules | src/utils/gameLogic.ts:163-175 | isValidMove is false out of bounds and on an occupied cell; in Standard mode it is true on every empty cell; in Gravity mode it is true on an empty cell exactly when z = 0 or the cell below is occupied |
| Rules.SupportedBelow | src/utils/gameLogic.ts:168-172 | under every empty cell of a column lies a cell that is legal in Gravity mode |
| Rules.GravityMoveKeepsSettled | src/utils/gameLogic.ts:168-172 | a legal Gravity move on a board with no floating piece leaves no floating piece |
| Rules.FilterValid | src/utils/gameLogic.ts:179 | the filter keeps exactly the members that are legal moves |
| Rules.FilterValidAscending | src/utils/gameLogic.ts:179 | the filter keeps the order of its input |
| Rules.AscendingUnique | src/utils/gameLogic.ts:177-180 | two ascending sequences with the same members are equal |
| Rules.ValidMoves | src/utils/gameLogic.ts:177-180 | getValidMoves holds exactly the legal moves, each an empty in-bounds cell |
| Rules.ValidMovesAscending | src/utils/gameLogic.ts:177-180 | the legal moves come in strictly ascending z, y, x order |
| Rules.StandardFilter | src/utils/gameLogic.ts:179 | in Standard mode the filter keeps every empty cell |
| Rules.StandardMovesAreEmptyCells | src/utils/gameLogic.ts:177-180 | in Standard mode getValidMoves equals getEmptyCells |
| Rules.NotFullHasMoves | src/utils/gameLogic.ts:136-180 | a board that is not full has a legal move in either mode |
| Rules.FullHasNoMoves | src/utils/gameLogic.ts:136-180 | a full board has no legal move |
| Gravity.Pieces | src/utils/gameLogic.ts:190-196 | the collected pieces are no more than the column's cells and none is empty |
| Gravity.PiecesAppend | src/utils/gameLogic.ts:190-196 | collecting the pieces of two parts one after the other is collecting the pieces of the whole |
| Gravity.CompactFacts | src/utils/gameLogic.ts:190-206 | compacting a column keeps its length and its bottom-to-top pieces and leaves no empty cell below a piece |
| Gravity.PackedIsCompact | src/utils/gameLogic.ts:190-206 | a column with no empty cell below a piece is left unchanged |
| Gravity.CompactIdempotent | src/utils/gameLogic.ts:190-206 | compacting a column twice is compacting it once |
| Gravity.Column | src/utils/gameLogic.ts:192-196 | the column of (x, y) holds the cells at heights 0 to N−1 |
| Gravity.SettleGet | src/utils/gameLogic.ts:188-207 | each cell after gravity is the cell at the same height of its compacted column |
| Gravity.SettleColumn | src/utils/gameLogic.ts:188-207 | each column after gravity is the compacted column |
| Gravity.SettleKeepsPieces | src/utils/gameLogic.ts:183-211 | gravity keeps each column's bottom-to-top sequence of pieces |
| Gravity.SettleIsSettled | src/utils/gameLogic.ts:183-211 | after gravity no piece has an empty cell below it |
| Gravity.SettledFixed | src/utils/gameLogic.ts:183-211 | a board with no floating piece is unchanged by gravity |
| Gravity.SettleIdempotent | src/utils/gameLogic.ts:183-211 | applying gravity twice is applying it once |
| Gravity.SettleKeepsCount | src/utils/gameLogic.ts:183-211 | gravity neither creates nor destroys pieces |
| Gravity.PiecesClear | src/utils/gameLogic.ts:423 | emptying a cell of a column removes one piece exactly when the cell held one |
| Gravity.ClearColumnCount | src/utils/gameLogic.ts:423 | emptying a cell changes only its own column's piece count |
| Gravity.ClearCount | src/utils/gameLogic.ts:423 | emptying a cell lowers the board's piece count by one exactly when it held a piece |
| Gravity.ApplyGravity | src/utils/gameLogic.ts:183-211 | applyGravity, column by column on a copy, returns the settled board |
| Gravity.CompactInPlace | src/utils/gameLogic.ts:190-206 | one column becomes its compacted form, with every other cell unchanged |
| Gravity.GatherColumn | src/utils/gameLogic.ts:190-196 | the gathered column is the column's pieces, bottom to top |
| Gravity.ClearColumn | src/utils/gameLogic.ts:198-201 | the column's cells become empty, with every other cell unchanged |
| Gravity.FillColumn | src/utils/gameLogic.ts:203-206 | piece i is written at height i, with every other cell unchanged |
| Explosions.Directions | src/utils/gameLogic.ts:329-335 | there are 13 directions, none of them zero |
| Explosions.DirectionsDistinct | src/utils/gameLogic.ts:329-335 | the 13 directions are pairwise distinct, and none is the reverse of another |
| Explosions.RunFacts | src/utils/gameLogic.ts:342-353 | the walk collects consecutive cells holding the player's piece, and stops at the first cell that is off the board or not the player's |
| Explosions.LineCells | src/utils/gameLogic.ts:338-380 | the run through the last move starts there and holds only the player's pieces on the board |
| Explosions.BracketCells | src/utils/gameLogic.ts:355-392 | the bracketing cells are at most two opposing pieces on the board |
| Explosions.ContributionFacts | src/utils/gameLogic.ts:394-398 | a direction contributes exactly when the maximal run through the last move is three long; the contribution is the run plus opposing pieces only |
| Explosions.Contributions | src/utils/gameLogic.ts:337-399 | one contribution per direction, in the order tried |
| Explosions.ConcatMembers | src/utils/gameLogic.ts:396-397 | a cell is in the concatenated contributions exactly when one of them holds it |
| Explosions.ExplosionMembers | src/utils/gameLogic.ts:323-402 | checkExplosion returns nothing for an empty cell; otherwise a cell is returned exactly when some direction contributes it |
| Explosions.ExplosionOccupied | src/utils/gameLogic.ts:323-402 | every returned cell is an occupied cell of the board; empty neighbours are never exploded |
| Explosions.ExplosionHasAnchor | src/utils/gameLogic.ts:323-402 | whenever anything explodes, the last move does too |
| Explosions.Walk | src/utils/gameLogic.ts:342-353 | the cursor loop appends the run along the direction and returns the cell where it stops |
| Explosions.Beyond | src/utils/gameLogic.ts:356-366 | the cell after the run is recorded exactly when it is an opposing piece on the board |
| Explosions.ScanDirection | src/utils/gameLogic.ts:338-392 | one direction yields the run through the last move and its bracketing opponents |
| Explosions.CheckExplosion | src/utils/gameLogic.ts:323-402 | checkExplosion returns the concatenated contributions of the 13 directions |
| Explosions.AddNewFacts | src/utils/gameLogic.ts:300-313 | recording keeps the earlier record as a prefix, adds exactly the given cells and never a duplicate |
| Explosions.AddNewAppend | src/utils/gameLogic.ts:299-314 | recording the run and then its opponents records their concatenation |
| Explosions.RecordNew | src/utils/gameLogic.ts:300-313 | the recording loop appends the cells not yet checked, and the checked set keeps mirroring the record |
| Explosions.CheckAllExplosions | src/utils/gameLogic.ts:214-321 | checkAllExplosions returns the record of the anchor-by-anchor scan |
| Explosions.ScanAnchor | src/utils/gameLogic.ts:233-315 | one anchor records, direction by direction, each run of exactly three followed by its opponents |
| Explosions.AddEachFacts | src/utils/gameLogic.ts:242-315 | recording sequences in turn adds exactly their cells and no duplicate |
| Explosions.ScanStepFacts | src/utils/gameLogic.ts:226-315 | visiting one cell keeps the record, adds only cells that some occupied anchor explodes, and adds no duplicate |
| Explosions.ScanStepAnchor | src/utils/gameLogic.ts:226-315 | visiting an anchor whose own explosion is nonempty records the anchor |
| Explosions.ScanFacts | src/utils/gameLogic.ts:223-318 | the scan keeps the record, adds only cells that some occupied anchor explodes, and adds no duplicate |
| Explosions.ScanFindsAnchor | src/utils/gameLogic.ts:223-318 | every later anchor whose own explosion is nonempty is recorded |
| Explosions.AllExplosionsFacts | src/utils/gameLogic.ts:214-321 | checkAllExplosions has no duplicates; every cell it returns is occupied and exploded by checkExplosion from some occupied anchor; every anchor with a nonempty explosion is returned |
| Explosions.AllExplosionsEmptyIff | src/utils/gameLogic.ts:214-321 | checkAllExplosions finds nothing exactly when checkExplosion finds nothing at every cell |
| Cascade.ClearList | src/utils/gameLogic.ts:421-424 | the board with the listed cells emptied; it is valid and of the same size |
| Cascade.ClearListCount | src/utils/gameLogic.ts:421-424 | clearing never adds a piece, and removes one when the first listed cell held a piece |
| Cascade.ClearListGet | src/utils/gameLogic.ts:421-424 | after clearing, a cell is empty iff it was listed, and otherwise keeps its content |
| Cascade.ClearCells | src/utils/gameLogic.ts:421-424 | equals ClearList; exactly the listed cells become empty; the piece count never rises, and it falls when the first listed cell held a piece |
| Cascade.RecordKeeps | src/utils/gameLogic.ts:439-445 | recording more cells keeps the record's prefix, its freedom from duplicates and its cells on the board |
| Cascade.CascadeStep | src/utils/gameLogic.ts:433-450 | one round of the loop: gravity keeps the piece count; the settled board is the result when the scan finds nothing, otherwise the cascade goes on from the cleared board with the new cells recorded, which has fewer pieces |
| Cascade.CascadeFacts | src/utils/gameLogic.ts:431-451 | the cascade ends on a settled board with no explosion anywhere and no more pieces than it started with; the record keeps its prefix, has no duplicates and holds only board cells |
| Cascade.CascadeAtRest | src/utils/gameLogic.ts:433-440 | a settled board with no explosion is returned unchanged with the record unchanged |
| Cascade.CascadeResult | src/utils/gameLogic.ts:405-455 | the cascade from the input with the initial cells cleared ends settled with no explosion anywhere, and its record starts with the initial cells once each, has no duplicates and holds only board cells |
| Cascade.ProcessGravityCascade | src/utils/gameLogic.ts:405-455 | the result is exactly CascadeFrom applied to the input with the initial cells cleared and recorded once each; so the final board has no floating piece and no explosion anywhere, and allExploded starts with the initial cells without repeats, has no duplicates and holds only cells of the board |
| PositionWeighting.Weights | src/utils/ai.ts:9-27 | there is one weight per cell |
| PositionWeighting.WeightAt | src/utils/ai.ts:9-27 | the weight of a cell is the number of winning lines through it |
| PositionWeighting.SumIncrement | src/utils/ai.ts:21 | incrementing one entry raises the sum of the table by one |
| PositionWeighting.TotalLengthUniform | src/utils/ai.ts:18-23 | lines of length N have N·(number of lines) cells in total |
| PositionWeighting.WeightsByCoord | src/utils/ai.ts:9-27 | a table holding the line count at every cell is the weight table |
| PositionWeighting.PositionWeights | src/utils/ai.ts:9-27 | getPositionWeights gives each cell the number of winning lines through it, and the weights sum to N·(3N² + 6N + 4) |
| PositionWeighting.CountLines | src/utils/ai.ts:18-23 | starting from zeros, each cell ends with the number of lines through it, and the sum is the lines' total length |
| PositionWeighting.CountLine | src/utils/ai.ts:20-22 | one line adds one to each of its cells and to nothing else |
| Heuristic.EvaluateBoard | src/utils/ai.ts:31-87 | evaluateBoard returns the weighted material plus the line scores plus the fork bonuses |
| Heuristic.MaterialLoop | src/utils/ai.ts:42-50 | the material loop adds X's weights and subtracts O's |
| Heuristic.LineLoop | src/utils/ai.ts:53-79 | the line loop adds each line's score to the material and counts each player's threats |
| Heuristic.ShiftTally | src/utils/ai.ts:63-78 | a line's score does not depend on the score it is added to |
| Heuristic.CountPieces | src/utils/ai.ts:54-61 | the counting loop returns the numbers of X and O pieces on the line |
| Heuristic.Swap | src/utils/ai.ts:31-87 | exchanging X and O changes every cell to its mirror |
| Heuristic.MaterialSwap | src/utils/ai.ts:42-50 | exchanging X and O negates the material |
| Heuristic.CountSwap | src/utils/ai.ts:57-61 | exchanging X and O exchanges the two piece counts of a line |
| Heuristic.LineTallyMirror | src/utils/ai.ts:63-78 | a line's score rule is symmetric between X and O |
| Heuristic.TallySwap | src/utils/ai.ts:53-79 | exchanging X and O negates the line score and exchanges the threat counts |
| Heuristic.EvaluateAntisymmetric | src/utils/ai.ts:31-87 | exchanging X and O everywhere negates the evaluation |
| Heuristic.MaterialZero | src/utils/ai.ts:42-50 | a board without pieces has no material |
| Heuristic.CountZero | src/utils/ai.ts:57-61 | a board without pieces has no piece on any line |
| Heuristic.TallyZero | src/utils/ai.ts:53-79 | a board without pieces scores no line and counts no threat |
| Heuristic.EvaluateEmpty | src/utils/ai.ts:31-87 | a board without pieces evaluates to 0 |
| Ordering.LessIsTotalOrder | src/utils/ai.ts:130-133 | comparison of scores with the ±Infinity sentinels is a strict total order extending that of the integers, with −Infinity least and +Infinity greatest |
| Ordering.Max | src/utils/ai.ts:156 | Math.max returns one of its arguments, and neither is larger |
| Ordering.Min | src/utils/ai.ts:162 | Math.min returns one of its arguments, and neither is smaller |
| Ordering.InsertPermutes | src/utils/ai.ts:124-128 | inserting into the sorted prefix adds exactly the new move |
| Ordering.InsertDescending | src/utils/ai.ts:124-128 | inserting into a descending sequence keeps it descending |
| Ordering.SortBySorts | src/utils/ai.ts:124-128 | the sort returns a permutation of its input, largest key first |
| Ordering.SortByMembers | src/utils/ai.ts:124-128 | the sorted sequence has the same members and the same length |
| Ordering.SortByWeight | src/utils/ai.ts:124-128 | sorting in-bounds moves yields in-bounds moves |
| Ordering.SortByWeightSorts | src/utils/ai.ts:124-128 | the weight sort returns a permutation of the moves, each at least as heavy as every later one |
| Ordering.SortedMembers | src/utils/ai.ts:192 | the sorted moves are the same moves, as many of them |
| Ordering.WithKeyAppend | src/utils/ai.ts:124-128 | selecting one key's elements distributes over concatenation |
| Ordering.InsertStable | src/utils/ai.ts:124-128 | inserting into a descending sequence puts the element after every element with the same key |
| Ordering.SortByDescending | src/utils/ai.ts:124-128 | the sort's output has keys descending |
| Ordering.SortByStable | src/utils/ai.ts:124-128 | the sort is stable: for each key, its elements come out in input order |
| Ordering.SortByWeightStable | src/utils/ai.ts:192 | moves of equal weight keep the order of the valid-move list |
| AlphaBeta.ExplosionOnBoard | src/utils/ai.ts:142-143 | every cell an explosion clears is an occupied cell of the board |
| AlphaBeta.ExplosionCellsInBounds | src/utils/ai.ts:142-143 | every cell an explosion clears is on the board |
| AlphaBeta.Fill | src/utils/ai.ts:143 | writing to every listed cell keeps the board's size |
| AlphaBeta.FillGet | src/utils/ai.ts:143 | after the writes the listed cells hold the value, and every other cell is unchanged |
| AlphaBeta.OrderedMoves | src/utils/ai.ts:189-192 | the moves searched from a position are the legal moves, as many of them |
| AlphaBeta.Search | src/utils/ai.ts:171-231 | minimax's score is always a finite number, and the working board keeps its size |
| AlphaBeta.Visit | src/utils/ai.ts:171-231 | a visited position has a finite score and keeps the board's size |
| AlphaBeta.Node | src/utils/ai.ts:179-231 | a position's score is finite and the board keeps its size |
| AlphaBeta.Loop | src/utils/ai.ts:194-229 | the loop's best move is either the one it started with or one of the moves it tried; once a move was tried the best score is finite |
| AlphaBeta.OrderedMovesEmpty | src/utils/ai.ts:189-192 | every searched move is an empty cell |
| AlphaBeta.EmptyFromNext | src/utils/ai.ts:196-209 | a move that keeps the occupancy leaves the later moves empty |
| AlphaBeta.Placed | src/utils/ai.ts:197 | placing the mover's piece keeps the board's size |
| AlphaBeta.Exploded | src/utils/ai.ts:199 | the cells the placed piece explodes are on the board |
| AlphaBeta.Cleared | src/utils/ai.ts:200 | the board after clearing the explosion keeps its size |
| AlphaBeta.Undone | src/utils/ai.ts:204-205 | the board after the undo keeps its size |
| AlphaBeta.UndoKeepsOccupancy | src/utils/ai.ts:196-205 | the undo gives back which cells hold a piece, whatever the reply did, as long as the reply kept the occupancy |
| AlphaBeta.UndoRestores | src/utils/ai.ts:196-205 | when every exploded cell held the mover's piece, the undo gives back the board before the move |
| AlphaBeta.UndoExactIff | src/utils/ai.ts:196-205 | on an empty cell, the undo gives back the board exactly when no exploded cell held an opposing piece |
| AlphaBeta.Try | src/utils/ai.ts:196-205 | one move has a finite score and keeps the board's size |
| AlphaBeta.SearchExact | src/utils/ai.ts:196-223 | when no explosion in the searched tree cleared an opposing piece, minimax leaves the working board bit for bit as it found it |
| AlphaBeta.NodeExact | src/utils/ai.ts:179-231 | the same, for a position |
| AlphaBeta.LoopExact | src/utils/ai.ts:194-229 | the same, for the loop over the moves |
| AlphaBeta.TryExact | src/utils/ai.ts:196-205 | the same, for one move |
| AlphaBeta.SearchKeepsOccupancy | src/utils/ai.ts:171-231 | minimax always leaves the same cells occupied as it found |
| AlphaBeta.NodeKeepsOccupancy | src/utils/ai.ts:179-231 | the same, for a position |
| AlphaBeta.LoopKeepsOccupancy | src/utils/ai.ts:194-229 | the same, for the loop over moves on empty cells |
| AlphaBeta.TryKeepsOccupancy | src/utils/ai.ts:196-205 | the same, for one move on an empty cell |
| AlphaBeta.TryIs | src/utils/ai.ts:196-205 | one move's outcome is the reply's score, the undone board and the exactness of both |
| AlphaBeta.Minimax | src/utils/ai.ts:171-231 | minimax on the working array returns the specified score and leaves the specified contents |
| AlphaBeta.SearchMoves | src/utils/ai.ts:137-166 | the loop over the ordered moves returns the specified best score and move and leaves the specified contents |
| AlphaBeta.SearchRound | src/utils/ai.ts:138-165 | one round keeps a strictly better score and its move, and narrows alpha for X or beta for O; the loop then stops when beta ≤ alpha |
| AlphaBeta.LoopStep | src/utils/ai.ts:196-209 | one round of the specified loop, unfolded |
| AlphaBeta.TryMove | src/utils/ai.ts:139-149 | place, explode, recurse and undo on the working array give the specified score and contents |
| AlphaBeta.TryParts | src/utils/ai.ts:139-149 | the three steps of a move assemble to the specified move |
| AlphaBeta.MakeMove | src/utils/ai.ts:139-143 | placing the piece and clearing its explosion give the specified exploded cells and board |
| AlphaBeta.UndoMove | src/utils/ai.ts:147-149 | the undo writes the mover's piece back onto every exploded cell and empties the move |
| AlphaBeta.FillArray | src/utils/ai.ts:143 | the forEach over the exploded cells writes the value into each of them |
| AlphaBeta.GetBestMove | src/utils/ai.ts:90-169 | getBestMove on a fresh working copy returns the specified move |
| AlphaBeta.ScanForWin | src/utils/ai.ts:102-120 | the win and block loops return the first move that wins at once for the given player; when none does, the working board is unchanged |
| AlphaBeta.SearchScores | src/utils/ai.ts:179-184 | an X win scores 100000 + depth, an O win −100000 − depth, a full board 0, and depth 0 the evaluation; the board is left unchanged |
| AlphaBeta.SearchIsNode | src/utils/ai.ts:171-231 | a search is the position it visits |
| AlphaBeta.SearchLoops | src/utils/ai.ts:186-231 | a position that is not terminal is scored by the loop over its ordered moves |
| AlphaBeta.FirstWhereSpec | src/utils/ai.ts:102-108 | the search for a first match returns nothing exactly when no move matches, and otherwise the earliest match |
| AlphaBeta.FirstLegal | src/utils/ai.ts:97-120 | among the legal moves, the first match is legal, matches, and no legal move earlier in z, y, x order matches; there is none exactly when no legal move matches |
| AlphaBeta.ValidMovesBefore | src/utils/ai.ts:97 | a legal move earlier in z, y, x order comes earlier in the list |
| AlphaBeta.FirstLegalWin | src/utils/ai.ts:102-120 | the first immediately winning legal move wins, and no earlier legal move does; there is none exactly when no legal move wins |
| AlphaBeta.BestMoveIsLegal | src/utils/ai.ts:97-168 | getBestMove returns null exactly when there is no legal move, and otherwise a legal move |
| AlphaBeta.RootMoveLegal | src/utils/ai.ts:137-168 | the move the root loop settles on, or the first sorted move, is legal |
| AlphaBeta.BestMoveTakesWin | src/utils/ai.ts:102-108 | when some legal move wins at once, getBestMove returns such a move, the first in z, y, x order |
| AlphaBeta.BestMoveBlocks | src/utils/ai.ts:112-120 | without an immediate win, when the opponent could win at once, getBestMove blocks the first such cell in z, y, x order |

## Left out

- The React application, the components and the tests. The game's turn order (winner first, then explosions in Standard mode only) lives in `src/App.tsx`, and `src/App.tsx` is not part of this model.
- The caches of winning lines and weights: both are modelled as pure functions of the size.
- Nested `[z][y][x]` arrays: the board is one flat sequence, as described above. JavaScript numbers are modelled as unbounded integers; the source only ever computes with small integers.
- The ±Infinity sentinels are the extended scores `Ordering.Ext`, with their own order. Every score minimax returns is finite.
- The JavaScript `Array.prototype.sort` call is modelled as a stable insertion sort, heaviest first. The language only guarantees stability, not the algorithm; `Ordering.SortByStable` proves the stability.
- AlphaBeta.GetBestMove: requires depth ≥ 1, and the default depth of 5 is a parameter. With depth ≤ 0 the source never reaches the depth-0 cutoff and may not terminate.
- Explosions.CheckExplosion: requires the last move to be on the board. The source would index outside its arrays otherwise.
- Cascade.ProcessGravityCascade: requires the initial exploded cells to be on the board. Nothing in the repository calls processGravityCascade (`src/App.tsx` does not); the cells checkExplosion produces for a move are on the board (`AlphaBeta.ExplosionCellsInBounds`).
- Explosions.AllExplosionsFacts: states soundness, freedom from duplicates and that every exploding anchor is recorded. It does not state equality with the union of checkExplosion over occupied cells, because the skipping of recorded anchors can lose a bracketing opponent.
- AlphaBeta.Search: promises an exact restore only for subtrees whose explosions took no opposing piece, and an occupancy restore always, because the undo is inexact as written.
- AlphaBeta.Search: no claim that alpha-beta returns the plain minimax value, and nothing about the efficiency of the move ordering.
- `Search`, `Visit` and `Node` are one step of the source split into three functions. `Visit` has no counterpart in the source; it only keeps each proof about one position from unfolding the positions below it.
- The caller's board in getBestMove and applyGravity is a value in the model, so it cannot change. The in-place work is on a fresh array.
