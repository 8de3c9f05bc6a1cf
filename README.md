# terminal2048 grid engine in Dafny

A model of the grid engine of terminal2048, a 2048 game played in a terminal (`main.cpp`). The
model covers the following:

- the 4 x 4 integer grid and `instantiateGrid`;
- the two starting tiles;
- the four move functions `slideUp`, `slideDown`, `slideLeft` and `slideRight`. Each uses a
  per-move merge mask (`fusionGrid`) and returns a movement flag;
- `check_for_gameOver`;
- the spawn step of the game loop, which writes a 2 or a 4 into a randomly drawn empty cell;
- one pass of the game loop: a move, a spawn when the move reported movement, then the
  end-of-game test.

Files and modules:

- `line_rule.dfy`, module `LineRule`: the rule on one line, read from the wall the tiles are
  pushed against. `Slide` is the reference: the line's tiles are merged greedily from the wall,
  each merged tile takes part in no further merge, and the result is padded with empty cells.
  `Visit` and `SweepTo` are the program's own cell-by-cell sweep with its merge mask.
- `line_rule.dfy`, module `LineSweep`: the proof that the sweep equals the reference. The
  invariant `Tracks` follows the tiles produced so far.
- `line_rule.dfy`, module `LineMoves`: the two descriptions proved equal (`SweepMatchesSlide`),
  what a slide guarantees, and worked examples.
- `board_model.dfy`, module `BoardModel`: the grid as a value.
  - `Move`: each line is replaced by its slide.
  - `Moved`: the movement flag.
  - `GameOver`, `Spawned`, and the board-level properties.
- `grid_engine.dfy`, module `GridEngine`: class `Grid`, holding the grid as an `array2<int>`.
  - The loops are methods over that array: `instantiateGrid`, the body of the move functions'
    inner loop, the two loop nests, the four move functions, `check_for_gameOver` and the
    spawn loop.
  - Each method is proved against `BoardModel`.
- `as_written.dfy`, module `AsWritten`: `slideDown` and `slideRight` exactly as the program
  writes them, with the lemmas behind the findings below.

The movement flag follows the code. One might expect a move to report movement exactly when the
grid changes, but the code sets the flag only when some tile changes position:

- A move that only merges tiles already next to each other reports no movement, and no tile is
  spawned (`LineMoves.MergeWithoutMove`).
- One might also expect a second identical move right after a first to report no movement. That
  is not so: `LineMoves.SecondMoveCanMove` shows a line that moves again.

The key 'q' restores the terminal and clears the loop's condition, but the end of the same pass
sets the condition again from the game-over test, so 'q' does not end a game that is not over
(`BoardModel.QuitKeepsGameRunning`, `GridEngine.Grid.PlayTurn`).

The model follows the code in all these cases.

## Model

| member | source | states |
|---|---|---|
| LineRule.Reach | main.cpp:153-162 | The scan from the tile at position k toward the wall stops at the wall or just after the nearest tile, with only empty cells between that position and k. |
| LineRule.MoveTile | main.cpp:166-174 | When the scan stopped short of k, the tile is written at the stopping position and its old cell is emptied; otherwise the line is unchanged. |
| LineRule.MergeAt | main.cpp:184-200 | Unless the tile is against the wall, it merges into the cell in front of it when that cell is unmarked in the mask and holds the same value: that cell doubles and is marked, and the tile's cell is emptied. Otherwise line and mask are unchanged. |
| LineRule.Visit | main.cpp:150-200 | The inner-loop body for position k: an empty cell is skipped; a tile is scanned to `Reach`, moved by `MoveTile`, then tested by `MergeAt`. `moved` is whether the tile changed position, the condition that sets the flag at main.cpp:166-167. |
| LineRule.SweepTo | main.cpp:148-201 | The inner loop over positions 1 .. k-1 from the wall, starting from an unmarked mask and a cleared flag; position 0 is never visited. Lengths of line and mask are kept. |
| LineMoves.SweepMatchesSlide | main.cpp:147-203 | The program's sweep ends with exactly the reference line (tiles merged from the wall, each merged tile absorbing no second one, then empty cells). It uses the per-move merge mask, and position 0 is never visited. The flag it raises is true exactly when some tile lands nearer the wall than where it stood. |
| LineRule.SlidePacked | main.cpp:155-173 | After a move a line keeps its length and is packed: no empty cell lies between the wall and a tile. |
| LineRule.SlideKeepsSum | main.cpp:186-199 | A slide leaves the sum of the line unchanged: a merge turns (V, V) into (2V, empty). |
| LineRule.SlideKeepsPowers | main.cpp:190-196 | If every cell of a line is empty or a power of two, it stays so after a slide: values only double. |
| LineRule.SlideMergeBound | main.cpp:184-199 | A line of n cells loses at most n/2 tiles to merges, because every merge absorbs one tile into a cell that absorbs no other. |
| LineMoves.MovesLeaveEmpty | main.cpp:166-173 | A line that reports movement ends with an empty cell at the far end from the wall. |
| LineMoves.MovesChangeLine | main.cpp:166-173 | A line that reports movement is changed by the move. |
| LineMoves.StuckLine | main.cpp:147-203 | A full line with no two equal neighbours is left as it is and reports no movement. This is the per-line form of the condition `check_for_gameOver` tests (main.cpp:16-45). |
| LineMoves.MergedCellAbsorbsOnce | main.cpp:182-199 | [2, 2, 4, 0] becomes [4, 4, 0, 0]: the new 4 does not absorb the sliding 4. Movement is reported. |
| LineMoves.FourEqualMergeInPairs | main.cpp:182-199 | [2, 2, 2, 2] becomes [4, 4, 0, 0], never a single 8. |
| LineMoves.ThreeEqualMergeOnce | main.cpp:182-199 | For any tile v, [v, v, v, 0] becomes [2v, v, 0, 0]: only the pair nearest the wall merges. |
| LineMoves.MergeWithoutMove | main.cpp:166-199 | [2, 2, 0, 0] becomes [4, 0, 0, 0], yet no movement is reported, because no tile changed position. |
| LineMoves.SecondMoveCanMove | main.cpp:166-199 | [2, 2, 4, 8] becomes [4, 4, 8, 0]. The same move again reports movement and gives [8, 8, 0, 0]. |
| BoardModel.Move | main.cpp:133-424 | The grid after a move: each column (Up, Down) or row (Left, Right), read from the wall the tiles are pushed against, is replaced by its slide. |
| BoardModel.Moved | main.cpp:140-205 | The flag a move returns: some line has a tile that changes position. |
| BoardModel.GameOver | main.cpp:16-46 | The grid is full, no two horizontally adjacent cells are equal, and no two vertically adjacent cells are equal. |
| BoardModel.Spawned | main.cpp:483-501 | The spawn step on a finite sequence of cell draws: the first draw that hits an empty cell receives the value (4 for an even coin draw, 2 otherwise); later draws are not used. When no draw hits an empty cell the grid is unchanged, where the program would keep drawing. |
| BoardModel.MoveSlidesEachLine | main.cpp:147-148 | Every column (Up, Down) or row (Left, Right) of the moved grid is the slide of that line before the move, read from the wall. |
| BoardModel.GameOverIsStuck | main.cpp:16-45 | When the game is over, every move leaves the grid unchanged and reports no movement. |
| BoardModel.MovedLeavesEmptyCell | main.cpp:483-501 | A move that reports movement leaves an empty cell, so the spawn loop has a cell to find. |
| BoardModel.MovedChangesBoard | main.cpp:166-173 | A move that reports movement changes the grid. |
| BoardModel.MoveKeepsPowers | main.cpp:190-196 | A grid of empty cells and powers of two stays one after any move. |
| BoardModel.MoveKeepsTotal | main.cpp:186-199 | No move changes the sum of the grid. |
| BoardModel.SpawnFillsOneEmptyCell | main.cpp:488-500 | The spawn step writes its tile into one cell that was empty and changes nothing else. If no draw picks an empty cell, the grid stays as it was. |
| BoardModel.SpawnAddsToTotal | main.cpp:484-500 | A spawn that finds an empty cell adds its value, 2 or 4, to the sum of the grid. |
| BoardModel.SpawnKeepsPowers | main.cpp:484-497 | The spawned tile keeps every cell empty or a power of two. |
| BoardModel.IsMoveKey | main.cpp:455-480 | The keys 'w', 's', 'a' and 'd' select a move; 'q' and any other key select none. |
| BoardModel.KeyDirection | main.cpp:461-475 | 'w' selects Up, 's' Down, 'a' Left and 'd' Right. |
| BoardModel.MoveTurn | main.cpp:461-501 | A move followed by the spawn step only when the move reports movement. |
| BoardModel.Turn | main.cpp:451-501 | One pass of the game loop for a key: a move key gives `MoveTurn`; 'q' and other keys leave the grid as it is. |
| BoardModel.Game | main.cpp:449-509 | The grid after the passes of the game loop for a sequence of keys and random draws. |
| BoardModel.StartingGrid | main.cpp:435-439 | The empty grid with a 2 at row 0, column 1 and a 4 at row 3, column 1. |
| BoardModel.StartingGridInvariants | main.cpp:435-439 | The starting grid holds only empty cells and powers of two, and its tiles sum to 6. |
| BoardModel.TurnKeepsInvariants | main.cpp:451-501 | One pass of the game loop keeps every cell empty or a power of two. The sum of the grid grows by the spawned value exactly when the key selects a move that reports movement and the spawn finds a cell; otherwise it is unchanged. |
| BoardModel.QuitKeepsGameRunning | main.cpp:456-507 | After 'q' the grid is unchanged, so on a grid that is not over the loop's condition is set true again and the game goes on. |
| BoardModel.GameKeepsPowers | main.cpp:449-509 | Every pass of the game loop, for any keys and draws, keeps every cell empty or a power of two. |
| BoardModel.GameFromStartKeepsPowers | main.cpp:435-509 | Every grid a game reaches from the starting grid holds only empty cells and powers of two. |
| GridEngine.InstantiateGrid | main.cpp:73-94 | Returns a fresh 4 x 4 array with every cell 0. |
| GridEngine.Grid.constructor | main.cpp:434-435 | A new game starts from the empty grid. |
| GridEngine.Grid.PlaceStartingTiles | main.cpp:438-439 | Writes a 2 at row 0, column 1 and a 4 at row 3, column 1, and nothing else. |
| GridEngine.Grid.SlideTile | main.cpp:150-200 | One pass of the inner loop changes line i of the grid and of the merge mask exactly as `Visit` does, and returns whether the tile slid. Every other line and mask line is unchanged. |
| GridEngine.Grid.SlideToward | main.cpp:155-173 | The scan stops at `Reach`: at the wall, or just after the nearest tile toward it. The tile is moved there (`MoveTile`), and no other line changes. |
| GridEngine.Grid.MergeBack | main.cpp:182-199 | The line and its mask become `MergeAt`: the tile merges into the cell in front of it exactly when that cell is unmarked and holds the same value. A merge doubles that cell, empties the tile's cell and marks the mask; otherwise nothing changes. |
| GridEngine.Grid.SweepLine | main.cpp:148-201 | Sweeping positions 1 to 3 of a column with a fresh mask line leaves the column's slide. The result is whether some tile moved; other columns are unchanged. |
| GridEngine.Grid.SlideColumns | main.cpp:147-202 | The column loop nest leaves `Move(old grid, d)` and returns `Moved(old grid, d)`. |
| GridEngine.Grid.VisitPosition | main.cpp:304-353 | Visiting position k of every row advances each row's sweep (`SweepTo`) and mask by one position. The movement flag becomes whether some row's sweep has slid a tile so far. |
| GridEngine.Grid.SlideRows | main.cpp:303-354 | The position-outer, row-inner loop nest leaves `Move(old grid, d)` and returns `Moved(old grid, d)`. |
| GridEngine.Grid.SlideUp | main.cpp:133-206 | The grid becomes `Move(old grid, Up)`, and the result is true exactly when some tile changed position. |
| GridEngine.Grid.SlideDown | main.cpp:209-287 | The grid becomes `Move(old grid, Down)`, and the result is true exactly when some tile changed position. This is the mirror of slideUp; see Findings. |
| GridEngine.Grid.SlideLeft | main.cpp:290-358 | The grid becomes `Move(old grid, Left)`, and the result is true exactly when some tile changed position. |
| GridEngine.Grid.SlideRight | main.cpp:362-424 | The grid becomes `Move(old grid, Right)`, and the result is true exactly when some tile changed position. This is the mirror of slideLeft; see Findings. |
| GridEngine.Grid.CheckForGameOver | main.cpp:16-48 | The result is true exactly when the grid is full and no two horizontally or vertically adjacent cells are equal. The grid is not changed. |
| GridEngine.Grid.Spawn | main.cpp:483-501 | The grid becomes `Spawned(old grid, coin, draws)`: the value is 4 for an even coin draw and 2 otherwise, written into the first drawn empty cell. The result is true exactly when some draw picks an empty cell. |
| GridEngine.Grid.PlayTurn | main.cpp:451-507 | One pass of the loop for the key read: the grid becomes `Turn(old grid, key, coin, draws)`, so a tile is spawned only after a move that reported movement. The result, the loop's condition for the next pass, is true exactly when the game is not over, whatever the key. |
| AsWritten.DownScan | main.cpp:230-235 | slideDown's scan as written: p advances while the cell at p itself is empty, stopping at the bottom row. |
| AsWritten.DownVisit | main.cpp:227-273 | slideDown's inner-loop body as written: the scan, the move, no merge test at the bottom row, and a merge that writes the doubled value into row p-1 and marks row p+1; the write above row 0 gives `None`. |
| AsWritten.DownFrom | main.cpp:224-276 | slideDown's inner loop as written, over rows from GRID_SIZE-2 down to 0, stopping at the first access outside the grid. |
| AsWritten.SlideDownColumn | main.cpp:220-277 | slideDown on one column as written, with a fresh mask and a cleared flag. |
| AsWritten.RightScan | main.cpp:381-387 | slideRight's scan: p advances while the next cell is empty and p is short of the last column. |
| AsWritten.RightVisit | main.cpp:378-419 | slideRight's inner-loop body as written: the scan, the move, and then a merge test with no wall guard; a tile against the right wall gives `None`, since the test reads past the row. |
| AsWritten.RightFrom | main.cpp:375-420 | slideRight's column loop as written for one row, over columns GRID_SIZE-2 down to 0. |
| AsWritten.SlideRightRow | main.cpp:372-421 | slideRight on one row as written, with a fresh mask row and a cleared flag. |
| AsWritten.SlideDownNeverMoves | main.cpp:230-246 | As written, slideDown never moves a tile and never reports movement. |
| AsWritten.SlideDownLeavesTileInPlace | main.cpp:227-246 | As written, column [2, 0, 0, 0] (top to bottom) stays as it is with no movement. The mirror of slideUp takes the 2 to the bottom and reports movement. |
| AsWritten.SlideDownCreatesValue | main.cpp:256-272 | As written, column [0, 4, 4, 0] becomes [8, 0, 4, 0]: the column sum goes from 8 to 12. |
| AsWritten.SlideRightReadsPastRow | main.cpp:385-419 | As written, slideRight reads past the end of every row that holds a tile and has an empty last cell. |

## Left out

- Terminal handling (`setupInput` and `restoreTerminal` with termios), `printGrid`, and the
  `std::cout` messages: output only.
- Reading the key with `getchar` is I/O: the key is a parameter of `GridEngine.Grid.PlayTurn`.
  For 'q' the model leaves out only the terminal restore; for any other key that is not a move,
  only the "error!" message. Neither changes the grid.
- `srand` and `rand`: randomness becomes parameters. `coin` is the draw that chooses 2 or 4, and
  `draws` are the (column, row) draws, each reduced modulo the grid size as the program does.
- GridEngine.Grid.Spawn: the program draws cells until one is empty, with no bound. The model
  takes a finite sequence of draws and reports whether one of them was empty.
  `BoardModel.MovedLeavesEmptyCell` shows that after a move reporting movement such a cell
  exists.
- Memory management: neither the grid nor the per-move merge masks from `instantiateGrid` are
  ever freed. In the model the mask is a fresh local array of each move.
- Integer width: cells are unbounded integers. A 32-bit `int` cannot overflow here, because the
  largest tile a 16-cell grid can hold is 2^17.
- GridEngine.Grid.SlideLeft: when a tile reaches column 0, the scan reads `grid[r][-1]` before
  testing `p > 0` (main.cpp:313). Whatever is read, the test then stops the scan at column 0, so
  the outcome is the mirror of slideUp. The out-of-bounds read itself is not reproduced.
- GridEngine.Grid.SlideDown: modelled as the mirror of slideUp, not as written. The program's
  version is in `AsWritten` and described under Findings.
- GridEngine.Grid.SlideRight: modelled as the mirror of slideLeft, not as written. The program's
  version is in `AsWritten` and described under Findings. As in slideLeft, its scan reads one
  cell past the row before testing the bound (main.cpp:385); that read is not reproduced.
- AsWritten: accesses outside the grid are not given a value. The model stops with `None` at the
  first access whose outcome depends on memory outside the grid.

## Findings

| source | as written | input that shows it | evidently intended | confidence | as-written member | corrected member |
|---|---|---|---|---|---|---|
| main.cpp:232-235 | The scan advances while `grid[p][c]` is empty, but p starts on the tile itself, so it never advances. slideDown never moves a tile and always reports no movement. | Column [2, 0, 0, 0], top to bottom: unchanged, no movement reported, no tile spawned | Test `grid[p+1][c]`, so the tile slides to the bottom | high (not executed) | AsWritten.SlideDownNeverMoves | GridEngine.Grid.SlideDown |
| main.cpp:265 | The merge writes `grid[p-1][c] = grid[p+1][c] * 2`. The doubled value goes into the cell ABOVE the tile, and the cell below keeps its value. When p is 0, the write lands outside the grid. | Column [0, 4, 4, 0] becomes [8, 0, 4, 0]: the sum goes from 8 to 12 | `grid[p+1][c] = grid[p+1][c] * 2`. With the scan at main.cpp:233 also corrected, the column becomes [0, 0, 0, 8]. With only line 265 corrected it becomes [0, 0, 8, 0]. | high (not executed) | AsWritten.SlideDownCreatesValue | GridEngine.Grid.SlideDown |
| main.cpp:405-408 | There is no `p == GRID_SIZE - 1` guard before the merge test. A tile that slid against the right wall reads `fusionGrid[r][4]` and `grid[r][4]`, past the row. | Row [0, 0, 2, 0] | `if (p == GRID_SIZE - 1) continue;`, as slideUp and slideDown have | high (not executed) | AsWritten.SlideRightReadsPastRow | GridEngine.Grid.SlideRight |

`GridEngine` uses the corrected moves throughout. For those moves the intended properties are
proved: `BoardModel.MoveKeepsTotal`, `BoardModel.MoveSlidesEachLine`,
`BoardModel.MovedLeavesEmptyCell` and `LineMoves.SweepMatchesSlide`.
