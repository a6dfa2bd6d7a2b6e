# Minesweeper game model

A Dafny model of the logic core of a Minesweeper game. It has two classes.

- `MineField` holds the mine positions: a rectangular boolean grid. It offers:
  - permissive queries (`inRange`, and `hasMine`, which is false off the grid);
  - the 3x3 adjacency count;
  - two mutators: one empties the grid, the other places `numMines` mines on distinct squares, never on one excluded square.
- `VisibleField` holds what the player sees: one status per square, a counter of covered squares, and a flag set when a mine goes off.
  - Covered statuses are negative: `COVERED`, `MINE_GUESS`, `QUESTION`.
  - Uncovered statuses are 0..8 (the adjacent-mine count), `MINE`, `INCORRECT_GUESS` and `EXPLODED_MINE`.
  - The player cycles guesses on covered squares and uncovers squares. Uncovering a mine loses the game and shows the mines and the wrong guesses. Uncovering any other square floods open the region around it.

The project has three files.

- `grids.dfy` (module `Grids`): counting over grids (`seq<seq<T>>`), row by row as the nested loops of the game run, with lemmas that compare counts. Also `Snapshot`, the contents of an `array2` as such a grid.
- `mine_field.dfy` (module `MineFieldModel`): the class `MineField` over an `array2<bool>`, and the mine counts it is specified by.
- `visible_field.dfy` (module `VisibleFieldModel`): the class `VisibleField` over an `array2<int>`, and the predicates that specify uncovering.
  - `FloodStep(s0, s1, g)`: only COVERED squares without a mine change, each to its count of neighbouring mines.
  - `FloodClosed(s0, s1)`: every square opened to 0 has no COVERED square left around it.
  - `FloodFrom(s0, s1, g, row, col)`: every square that changed ends a zero path of `s0` from (row, col). A zero path runs through COVERED squares without a mine, each step to one of the eight squares around, and every square on it but the last has no mine around it. So the flood opens nothing it could not reach through squares with a count of 0.
  - `LossDisplay`: what the screen shows after a mine goes off.

Both classes update their arrays in place, as the Java does. Their methods state the new state through ghost views: `MineField.Cells()` is the mine grid, and in `VisibleField`, `Status()` is the display and `Mines()` the mine grid of its field. The class invariant `VisibleField.Valid` says three things:
- every status is legal;
- the display matches the field in size;
- until a mine has gone off, `numCovered` is the number of covered squares.

The recursive flood fill `uncoverHelper` terminates with a ghost measure: the number of squares whose status is `COVERED`. Each effective call turns one such square into a count, and a flood step never adds such squares (`FloodStepShrinks`), so every recursive call starts with fewer of them than its caller did.

The Java documentation and code differ in one place, and the model follows the code: `numAdjacentMines` counts the square itself as well as its eight neighbours. This is reported under Findings.

The loss sweep of `uncover` uncovers mines and wrong guesses without decrementing `numCovered`. So after a loss `numCovered` no longer counts the covered squares, and the invariant on it holds only while no mine has exploded.

## Model

| member | source | states |
|---|---|---|
| MineFieldModel.NeighbourMines | MineField.java:108-111 | the number of mines among the eight squares around a position, positions off the grid counting nothing; at most 8 |
| MineFieldModel.BlockIsNeighboursAndCentre | MineField.java:117-129 | the 3x3 block count the loop computes is the eight-neighbour count plus one for a mine at the centre; on a square without a mine it is the neighbour count and at most 8 |
| MineFieldModel.BlockCountsCentre | MineField.java:108-129 | on a 1x1 field holding a mine, the block count is 1 while the neighbour count is 0 |
| MineFieldModel.FreeCellExists | MineField.java:84-92 | while fewer mines than cells minus one have been placed, a free square other than the excluded one exists, so the resampling loop can always end |
| MineFieldModel.NoFreeCellWhenFull | MineField.java:84-92 | with rows*cols - 1 mines placed and none on the excluded square, every other square holds a mine, so the retry loop finds no free square |
| MineFieldModel.FullFieldCannotBePopulated | MineField.java:28-47 | the field built from the full 1x2 grid has numMines 2; after its first placement avoiding (0, 0) no square is free for the second |
| MineFieldModel.MineField.FromGrid | MineField.java:28-47 | the field keeps the given grid, takes its dimensions, and sets numMines to the number of true squares |
| MineFieldModel.MineField.Empty | MineField.java:58-70 | with positive dimensions and 3*numMines < rows*cols, the field is fresh, every square is empty, and numMines is stored as given |
| MineFieldModel.MineField.ResetEmpty | MineField.java:100-106 | every square is empty and the mine count is 0; dimensions and numMines are constants |
| MineFieldModel.MineField.PopulateMineField | MineField.java:79-93 | afterwards exactly numMines squares hold a mine and the excluded square holds none |
| MineFieldModel.MineField.NumAdjacentMines | MineField.java:117-129 | the result is the eight-neighbour count plus one if the square itself has a mine, in [0, 9] |
| MineFieldModel.MineField.InRange | MineField.java:138-142 | true exactly when 0 <= row < rows and 0 <= col < cols |
| MineFieldModel.MineField.HasMine | MineField.java:167-174 | true exactly when the position is on the grid and holds a mine; false off the grid |
| MineFieldModel.MineField.NumRows | MineField.java:148-150 | the number of rows of the grid, positive |
| MineFieldModel.MineField.NumCols | MineField.java:156-158 | the number of columns of the grid, positive |
| MineFieldModel.MineField.NumMines | MineField.java:182-184 | the stored target mine count, not negative |
| VisibleFieldModel.AllCoveredCount | VisibleField.java:55-61 | a display whose every square is COVERED has rows*cols covered squares, so the initial counter agrees with the display |
| VisibleFieldModel.GuessCycle | VisibleField.java:125-139 | cycling leaves an uncovered square alone, moves a covered one to a different covered status, and three cycles restore any status |
| VisibleFieldModel.LossShowsMines | VisibleField.java:157-169 | after a loss every mine shows as guessed, revealed or exploded, and every guess still shown is on a mine |
| VisibleFieldModel.CoveredAtLeastMines | VisibleField.java:183-193 | while every mine is covered, the covered squares are at least as many as the mines, and exactly as many if and only if every square without a mine is uncovered, which is when the counter test declares a win |
| VisibleFieldModel.FloodStepShrinks | VisibleField.java:227-251 | a flood step never adds COVERED squares, so the measure of each recursive call is at most that of the display it started from |
| VisibleFieldModel.FloodUncoversChanged | VisibleField.java:232-236 | across a flood step the covered squares fall by exactly the number of squares that changed |
| VisibleFieldModel.UncoverOne | VisibleField.java:228-237 | opening one COVERED square without a mine to its count is a flood step that removes exactly one covered square, opens only that square, and is closed when the count is not 0 |
| VisibleFieldModel.FloodAdvance | VisibleField.java:238-245 | each recursive call extends the flood, settles one more of the eight squares around the opened square, and opens only squares reached by zero paths from around it |
| VisibleFieldModel.FloodFinish | VisibleField.java:235-245 | opening a square to 0 and then settling its eight neighbours is a closed flood step that leaves no COVERED square around it |
| VisibleFieldModel.FloodSpreads | VisibleField.java:141-147 | a closed flood step that opened a square with no mine around it opened every square around it |
| VisibleFieldModel.FloodFromAround | VisibleField.java:235-245 | what the eight calls opened, together with the square opened to 0, ends zero paths from that square in the display before it was opened |
| VisibleFieldModel.ZeroPathBack | VisibleField.java:228 | a zero path of a display reached by a flood step was a zero path before it, since the flood only uncovers |
| VisibleFieldModel.ZeroPathPrepend | VisibleField.java:235-245 | a COVERED square without a mine and with no mine around it extends a zero path that starts next to it |
| VisibleFieldModel.LastOnPathCovered | VisibleField.java:228 | every zero path ends on a COVERED square of its display |
| VisibleFieldModel.NonZeroOpensOnlyItself | VisibleField.java:230-233 | a flood that starts from a square with a mine around it opens that square and nothing else |
| VisibleFieldModel.FloodSkipsMarked | VisibleField.java:147 | a flood never changes a square that was not COVERED, so guessed and questioned squares stay as they are and wall the flood off |
| VisibleFieldModel.FloodReachesRegion | VisibleField.java:141-147 | a closed flood step that opened the start of a path through COVERED mine-free squares, each but the last with no mine around it, opened the whole path, each square to its neighbour count |
| VisibleFieldModel.VisibleField.constructor | VisibleField.java:51-63 | every square is COVERED, numCovered is rows*cols, no mine has gone off, and the mine field is the given one |
| VisibleFieldModel.VisibleField.ResetGameDisplay | VisibleField.java:68-77 | the display returns to the initial state over the same mine field |
| VisibleFieldModel.VisibleField.GetStatus | VisibleField.java:95-99 | the stored status of the square, which is a legal status |
| VisibleFieldModel.VisibleField.NumMinesLeft | VisibleField.java:107-115 | numMines minus the number of MINE_GUESS squares, possibly negative |
| VisibleFieldModel.VisibleField.CycleGuess | VisibleField.java:125-139 | the square moves to its next guess status, every other square and numCovered stay as they were, and the invariant is kept |
| VisibleFieldModel.VisibleField.Uncover | VisibleField.java:153-177 | true exactly when the square has no mine. On a mine, the flag is set, numCovered stays, and the display is the loss display. Otherwise the display changes by a closed flood step that opens the square, every square that changed ends a zero path from it, and every square on such a path is opened (with FloodReachesRegion). numCovered falls by the number of squares changed. Uncovering a square already uncovered changes nothing |
| VisibleFieldModel.VisibleField.IsGameOver | VisibleField.java:183-193 | true after a loss; otherwise true exactly when the number of covered squares equals numMines |
| VisibleFieldModel.VisibleField.IsUncovered | VisibleField.java:203-208 | true exactly when the status is one of the uncovered ones (at least 0) |
| VisibleFieldModel.VisibleField.UncoverHelper | VisibleField.java:227-251 | the display changes by a closed flood step after which the square needs no visit, and every square that changed ends a zero path from the square. Nothing changes unless the square is a COVERED square without a mine on the field. numCovered falls by the drop in covered squares, and the invariant is kept |
| VisibleFieldModel.VisibleField.UncoverAround | VisibleField.java:235-245 | with the square opened to 0, visiting its eight neighbours makes, from before the square was opened, a closed flood step that keeps the square at 0 and changes only squares at the end of zero paths from it |
| VisibleFieldModel.VisibleField.UncoverAroundRest | VisibleField.java:242-245 | the last four recursive calls extend the flood, settle the last four squares around the opened square, and open only squares reached by zero paths from around it |
| VisibleFieldModel.VisibleField.UncoverNext | VisibleField.java:238-245 | one recursive call extends the flood so far, settles the next square around the opened square, and opens only squares reached by zero paths from around it |

## Left out

- Random placement (`java.util.Random`): `PopulateMineField` places each mine on any free square other than the excluded one, by a nondeterministic choice. The distribution of mines is not modelled.
- The floating-point test `numMines < limit / 3.0` of the three-argument constructor is stated as the integer precondition `3 * numMines < rows * cols`. The two agree on all integers.
- `PopulateMineField` requires `numMines < rows * cols`. Without it the Java resampling loop never ends (see Findings).
- The assertion checks (`assert inRange(...)`, the positive dimensions) become preconditions. Java's behaviour when assertions are disabled is not modelled.
- Both `toString` methods: debug text only.
- `getMineField`, and aliasing in general. The grid constructor keeps the caller's array, as the Java does, but nothing outside the model writes to it. Java's jagged arrays are modelled as rectangular `array2`s.
- Java's 32-bit `int`: all numbers are unbounded, so the model assumes `rows * cols < 2^31`. Larger fields (46341 x 46341, say) overflow `limit` in the three-argument constructor and `numCovered`, and the model does not capture that.
- The GUI and controller that drive the game are not part of this model.
- `VisibleFieldModel.VisibleField.UncoverAround`, `UncoverAroundRest` and `UncoverNext` are proof structure only: the eight recursive calls of `uncoverHelper`, in the same order, split over three methods. `NumAdjacentMines` is called once per visit instead of twice; it changes nothing, so the result is the same.
- Uncovering the same square twice leaves the display as after the first time. This follows from two `Uncover` postconditions together: the first call leaves the square uncovered, and a call on an uncovered square changes nothing. No separate lemma states it, because a lemma cannot call a method.

## Findings

| source | as written | input that shows it | evidently intended | confidence | as-written member | corrected member |
|---|---|---|---|---|---|---|
| MineField.java:117-129 | `numAdjacentMines` loops over the whole 3x3 block, so it counts a mine on the square itself; its documentation (lines 108-111) says the square itself is not counted and the result is in [0, 8] | a 1x1 field with a mine: the result is 1, not 0; a square with a mine and all eight neighbours mined gives 9 | count only the eight neighbours, a result in [0, 8]; the game only asks about squares without a mine, so the display is unaffected | not executed | MineFieldModel.BlockCountsCentre | MineFieldModel.NeighbourMines |
| MineField.java:84-92 | `populateMineField` retries until it draws a free square other than the excluded one; nothing stops `numMines` from reaching `rows * cols`, which the grid constructor (lines 28-47) sets for a full grid | the field built from `[[true, true]]` (numMines 2), populated avoiding (0, 0): the first mine goes on (0, 1), and the loop at lines 87-90 then never ends | a precondition `numMines < rows * cols` on `populateMineField`, which the three-argument constructor's one-third bound already ensures | not executed | MineFieldModel.FullFieldCannotBePopulated | MineFieldModel.MineField.PopulateMineField |
