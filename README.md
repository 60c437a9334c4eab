# Sliding-puzzle board

A model of the `Board` class of an N-by-N sliding-puzzle solver
(`alg4hw4/src/Board.java`). A board holds its tiles in an N-by-N array, `0` being
the blank, and beside them the solved board of the same side, in which the tiles
`1 .. N*N-1` run row by row and the blank comes last. Its operations are:

- the two goal-distance estimates, Hamming (tiles out of place) and Manhattan
  (sum of the tiles' distances to their goal cells);
- the goal test, value equality, and the text form;
- the twin, a new board with two tiles of one row exchanged;
- the neighbours, the new boards one move of the blank away.

Every operation that "changes" a board builds a new one over a fresh copy of
the tiles.

The project has five modules:

- `Grids` (`grids.dfy`): the tiles as a value `seq<seq<int>>`. It defines the
  solved board, legal boards (the values `0 .. N*N-1`, each exactly once), the
  exchange of two cells, and the row-major scan the board uses to find a value.
- `Heuristics` (`heuristics.dfy`): both estimates as sums over the cells, in
  the order the board's loops visit them, with their properties.
- `Moves` (`moves.dfy`):
  - the cells the twin exchanges, as written in `Board.java` and as corrected;
  - the cells next to the blank, in the order the board tries them;
  - the successor grids and their characterisation.
- `Text` (`text.dfy`): the board's text, and a reference parser the rendering
  is proved against.
- `Boards` (`board.dfy`): `class Board` over `array2<int>`. Its methods follow
  the Java loops and are proved against the functions of the other modules.

Two points of the code are worth stating plainly:

- The doc comment of `twin()` (`alg4hw4/src/Board.java:137-139`) speaks of
  exchanging two *adjacent* blocks in the same row, but when cell (0,1) is
  blank the code exchanges (0,0) with (0,2), which are not adjacent. The model
  follows the code.
- No operation changes a board, but the constructor keeps the caller's array
  (`alg4hw4/src/Board.java:28`) rather than copying it. The model keeps that:
  `blocks == tiles`.

## Model

| member | source | states |
|---|---|---|
| Boards.Board.constructor | alg4hw4/src/Board.java:27-33 | the board keeps the given array as its tiles, its side is the array's row count, and its goal array is a fresh solved board of that side |
| Boards.Board.InitGoalBoard | alg4hw4/src/Board.java:244-253 | returns a fresh n-by-n array holding `i*n+j+1` in every cell except the last, which holds 0; its contents are the solved grid |
| Grids.GoalGrid | alg4hw4/src/Board.java:244-253 | the solved grid is square of side n, and cell (i,j) holds the goal value of that cell |
| Grids.GoalIsPermutation | alg4hw4/src/Board.java:244-253 | the solved board is a legal board: every value `0 .. n*n-1` appears exactly once |
| Grids.GoalAtIff | alg4hw4/src/Board.java:244-253 | cell (i,j) of the solved board holds v exactly when v is a tile value whose goal cell is (i,j) |
| Boards.Board.Hamming | alg4hw4/src/Board.java:49-61 | the result is the number of non-blank cells whose tile differs from the solved board's, summed in visiting order |
| Boards.Board.Manhattan | alg4hw4/src/Board.java:68-84 | the result is the sum, over the non-blank cells, of the row-plus-column distance from the cell to its tile's goal cell |
| Heuristics.Distance | alg4hw4/src/Board.java:117-119 | the distance of calcManhPriority is 0 exactly when the two cells coincide |
| Heuristics.TotalZeroIff | alg4hw4/src/Board.java:49-84 | either estimate is 0 exactly when no cell contributes to it |
| Heuristics.HammingBound | alg4hw4/src/Board.java:49-61 | Hamming lies between 0 and N*N |
| Heuristics.ManhattanDominatesHamming | alg4hw4/src/Board.java:49-84 | when all values are in range, Hamming never exceeds Manhattan, because a misplaced tile is at least one move from home |
| Heuristics.HammingZeroIffGoal | alg4hw4/src/Board.java:49-61 | on a legal board, Hamming is 0 exactly when the board is solved |
| Heuristics.ManhattanZeroIffGoal | alg4hw4/src/Board.java:68-84 | on a legal board, Manhattan is 0 exactly when Hamming is, and exactly when the board is solved |
| Heuristics.GoalCostsNothing | alg4hw4/src/Board.java:49-84 | both estimates are 0 on the solved board |
| Boards.Board.FindGoalCoord | alg4hw4/src/Board.java:86-100 | the result is the cell of the solved board holding val, or (0,0) when no cell holds it |
| Grids.ScanGoal | alg4hw4/src/Board.java:86-100 | the row-major scan of the solved board, which breaks only out of the column loop, reports the goal cell of v |
| Grids.ScanRows | alg4hw4/src/Board.java:102-115 | the scan reports either (0,0) or a cell of the scanned rows that holds v |
| Boards.Board.FindZeroCoord | alg4hw4/src/Board.java:102-115 | the result is the scan's answer for 0: the last row holding a 0 and the first 0 in it, or (0,0). It is always on the board, and on a legal board it is the blank |
| Grids.ScanBlank | alg4hw4/src/Board.java:102-115 | on a legal board, the scan for 0 reports the one cell that holds the blank |
| Boards.Board.IsGoal | alg4hw4/src/Board.java:126-135 | true exactly when every cell holds its solved-board value |
| Grids.IsGoalGridIff | alg4hw4/src/Board.java:126-135 | matching the solved board cell by cell is the same as being equal to the solved grid |
| Moves.TwinCellsAsWritten | alg4hw4/src/Board.java:145-153 | the cells chosen as written in `Board.java` always lie in row 0, left one first, in columns 0 to 2 |
| Moves.TwinAsWrittenLeavesBoard | alg4hw4/src/Board.java:145-153 | on the legal 2-by-2 boards `[[1,0],[2,3]]` and `[[0,1],[2,3]]`, the choice written in `Board.java` names a cell off the board |
| Moves.TwinCells | alg4hw4/src/Board.java:143-155 | the corrected choice always fits the board and lies in one row. It equals the choice written in `Board.java` whenever that fits, which is always true for N >= 3 |
| Moves.TwinExchangesTiles | alg4hw4/src/Board.java:137-155 | when no value occurs twice, the twin exchanges two non-blank tiles. It changes the board, leaves the blank where it was, and keeps a legal board legal |
| Boards.Board.Twin | alg4hw4/src/Board.java:143-155 | returns a new board over a new array holding this board's tiles with the twin cells exchanged. When no value repeats, it differs from this board. On a 2-by-2 board with the blank in row 0, where the Java throws, it exchanges the two tiles of row 1 instead (see Findings) |
| Boards.Board.Equals | alg4hw4/src/Board.java:160-177 | true exactly when the other board holds the same value in each of the N-by-N cells. For two boards of the same side, that means exactly equal grids |
| Grids.CellwiseEqual | alg4hw4/src/Board.java:169-176 | two square grids of one side are equal exactly when they agree in every cell |
| Boards.Board.Neighbors | alg4hw4/src/Board.java:184-205 | returns fresh boards of side N holding exactly the successor grids of this board, in order |
| Boards.Board.NeighborsOf | alg4hw4/src/Board.java:189-202 | from the blank at (row, col), returns one fresh board per target cell holding the corresponding move |
| Boards.Board.AddNeighbor | alg4hw4/src/Board.java:191-202 | one guarded add: when the guard holds, it appends the next move as a fresh board; the boards before it are unchanged |
| Moves.MovesFrom | alg4hw4/src/Board.java:189-202 | there is one move per target cell of the blank |
| Moves.TargetsAreAdjacentCells | alg4hw4/src/Board.java:191-202 | the four guards admit exactly the cells on the board one step from (r,c), each once. There are at most four, and at least two once N >= 2 |
| Moves.MoveIntoBlank | alg4hw4/src/Board.java:191-202 | moving a tile into the blank of a legal board gives a legal board with the blank where the tile was; moving the tile back restores the board |
| Moves.MoveAt | alg4hw4/src/Board.java:191-202 | move k is a legal board whose blank stands on target k, and exchanging the two cells back restores the board |
| Moves.MovesDiffer | alg4hw4/src/Board.java:191-202 | two different moves from the same blank give different boards |
| Moves.SuccessorsAreMoves | alg4hw4/src/Board.java:184-205 | a legal board has at most four successors, and at least two once N >= 2. All of them are legal, different from the board, and pairwise different |
| Moves.MoveIsOneMove | alg4hw4/src/Board.java:191-202 | each move exchanges the blank with a cell at distance 1 |
| Moves.OneMoveIsMove | alg4hw4/src/Board.java:191-202 | when the blank stands only at (r,c), every grid one move away is among the moves from (r,c) |
| Moves.MoveUndone | alg4hw4/src/Board.java:191-202 | the board is one move away from each of its moves |
| Moves.SuccessorsAreOneMoveAway | alg4hw4/src/Board.java:184-205 | on a legal board, a grid is a successor exactly when it arises by exchanging the blank with a cell one step away |
| Moves.SuccessorsAreMutual | alg4hw4/src/Board.java:184-205 | a legal board is among the successors of each of its successors |
| Boards.Board.Swap | alg4hw4/src/Board.java:207-213 | returns a fresh array holding the tiles with the two cells exchanged; the board itself is left unchanged |
| Grids.Swapped | alg4hw4/src/Board.java:207-213 | the exchange has the same shape, moves each of the two values into the other cell, and leaves every other cell alone |
| Grids.SwapInvolution | alg4hw4/src/Board.java:207-213 | exchanging the same two cells twice restores the grid |
| Grids.SwapSymmetric | alg4hw4/src/Board.java:207-213 | the order in which the two cells are named does not matter |
| Grids.SwapPreservesPermutation | alg4hw4/src/Board.java:207-213 | exchanging two cells of a legal board gives a legal board |
| Boards.Board.CopyBlocks | alg4hw4/src/Board.java:215-223 | returns a fresh N-by-N array with the same contents as the tiles |
| Boards.Board.ToString | alg4hw4/src/Board.java:229-242 | the result is the board's text: N, then each row after a newline, with every value in decimal followed by a space |
| Text.NatStr | alg4hw4/src/Board.java:234 | the decimal form of a number is a non-empty string of digits |
| Text.ParseIntRoundTrip | alg4hw4/src/Board.java:238 | an integer's decimal form, followed by a non-digit, reads back as that integer |
| Text.ParseRowRoundTrip | alg4hw4/src/Board.java:237-239 | a row's text reads back as that row |
| Text.ParseRowsRoundTrip | alg4hw4/src/Board.java:232-240 | the text of rows of length n reads back as those rows |
| Text.RenderRoundTrip | alg4hw4/src/Board.java:229-242 | reading a board's text back yields its side and its grid |
| Text.RenderInjective | alg4hw4/src/Board.java:229-242 | different boards of the same side have different texts |

## Left out

- `alg4hw4/src/Solver.java` holds only stub methods and a `main` that reads a board and prints; it is not modelled.
- `Board.main` is a demonstration that only prints, so it is left out.
- `dimension()` and `getBlocks()` are not modelled as operations. They return fields, and the model exposes those directly as the constants `N` and `blocks`.
- Boards.Board.Equals takes a `Board`, not any object. The `null` and `getClass()` checks of `equals(Object)` therefore have no counterpart; the identity shortcut is modelled.
- Boards.Board.Equals requires the other board's array to have at least N rows and columns. On a smaller one the Java loop either returns false at an earlier mismatch or throws an index exception; the model requires the larger array.
- Boards.Board.constructor requires a square array of side at least 1:
  - For side 0, `initGoalBoard` would throw when it writes `g[-1][-1]`.
  - Ragged Java arrays cannot be represented by `array2`.
  - A rectangular `int[N][M]` with M > N, on whose N-by-N part the Java works, is not modelled: the model's board is its N-by-N grid, and every contract is stated over that grid.
- Boards.Board.Twin requires N >= 2. For N = 1 the Java code throws: on `[[0]]` it takes the else branch and fails inside `swap` at `copy[0][1]`, and on any other 1-by-1 array it fails reading `blocks[0][1]`.
- Boards.Board.Twin departs from the Java code on a 2-by-2 board whose blank is in row 0: where the Java throws at `copy[0][2]`, the model exchanges the two tiles of row 1 (see Findings).
- Java `int` overflow is not modelled: values and sums are unbounded integers. They agree with Java as long as `N*N` and the estimates fit in 32 bits.
- `findGoalCoord` and `findZeroCoord` return an `int[2]` in Java. The model returns two out-parameters instead.
- `neighbors()` returns an `ArrayList` as an `Iterable`. The model returns a sequence of boards in the list's order.
- Boards.Board.NeighborsOf and Boards.Board.AddNeighbor split the four guarded `boards.add(...)` steps of `neighbors()` into a helper called once per guard. The guard is passed to it as a boolean, and the behaviour is unchanged.
- The parser in `Text` is not an operation of the board. It is a reference definition that the rendering is proved to invert.
- Solvability and the parity argument that a board and its twin cannot both be solved are not modelled: the code has no solvability check or search.

## Findings

| source | as written | input that shows it | evidently intended | confidence | as-written member | corrected member |
|---|---|---|---|---|---|---|
| alg4hw4/src/Board.java:145-153 | when (0,0) or (0,1) holds the blank, `twin()` exchanges a cell with (0,2) | the legal 2-by-2 board `[[1,0],[2,3]]` (or `[[0,1],[2,3]]`): column 2 does not exist, so `swap` throws an index exception at `copy[0][2]` (line 210), on the copy that `copyBlocks` builds | exchange two non-blank tiles of one row on every board of side at least 2; for a 2-by-2 board with the blank in row 0, exchange the two tiles of row 1 | not executed | Moves.TwinAsWrittenLeavesBoard | Moves.TwinCells |
