# Falling-block game engine of tetris4k.py, in Dafny

This project models the game-state engine of the `Tetris` class in
`tetris4k.py`, a small single-file falling-block game. It also models the two
collision guards that the main loop puts on player input. The state is a
10 x 20 grid of settled cells, an active piece, and the score counters:

- a piece is one of seven catalog masks plus a rotation count;
- its current shape is the mask turned that many times by
  `zip(*shape[::-1])` ("reverse the rows, then transpose");
- the piece has an anchor `(x, y)` at the top-left of its bounding box.

Every operation is a pure function over immutable datatypes. The two loops of
the source that are worth proving are also written as methods with loop
invariants: the collision scan and the lock loop.

Modules, one per component:

- `Pieces` (pieces.dfy): the catalog, `rotate_piece`, `get_piece_shape`. It
  proves the rotation identities: four turns give the identity, a turn swaps
  the dimensions, and a turn keeps the number of cells, so every shape has
  four cells.
- `Board` (board.dfy): the grid, `check_collision`, and the cell writes of a
  lock.
- `LineClear` (lineclear.dfy): the grid half of `clear_lines` and its point
  table. It holds the source's removal loop as written, and the corrected
  version.
- `Engine` (engine.dfy): the `Tetris` object as a `Game` value. It holds
  `update`, the guarded left, right and rotate moves, and the invariants
  that reachable states keep. `OnBoard` says that the piece is on the board,
  the rotation is in 0..3, and `level == lines / 10`. `Valid` adds that no
  row is full.

`random.choice` becomes a parameter: `Init(first)` and `Update(g, next)`
take the kind of the piece to spawn. Rows are `nat` because `piece_y` is only
ever set to 0 or incremented. Cells and mask entries are booleans; the source
stores 0/1 integers and tests them for truth.

The source removes full rows in a way that misses the intended rows when
more than one row is full (see Findings). The engine is therefore modelled
twice:

- `Update`, `Step` and `Run` use the corrected `ClearRows`. For them `Valid`
  holds in every reachable state, so no row is ever full after a clear, and
  `LockClearsAtMostFour` proves that one lock completes at most four rows.
- `UpdateAsWritten`, `StepAsWritten` and `RunAsWritten` use the source's loop
  as written (`ClearRowsAsWritten`). For them only `OnBoard` is proved, and
  `AsWrittenUpdateDiffers` shows a lock after which a full row remains.

## Model

| member | source | states |
|---|---|---|
| Pieces.Catalog | tetris4k.py:23-31 | every catalog mask is a rectangle of 1-2 rows and 2-4 columns |
| Pieces.CatalogFourCells | tetris4k.py:23-31 | every catalog mask has exactly four occupied cells |
| Pieces.RotatePiece | tetris4k.py:73-74 | the rotation count always lands in 0..3: it goes up by one below 3 and wraps from 3 to 0; the kind is kept |
| Pieces.RotateFourTimes | tetris4k.py:73-74 | four `rotate_piece` calls give back the count modulo 4, so three more after a first one undo it |
| Pieces.ZipWidth | tetris4k.py:80 | `zip` over no rows yields no tuples, and over some rows at most as many as the first row is long |
| Pieces.ZipWidthIsMin | tetris4k.py:80 | `zip` over the mask's rows yields as many tuples as the shortest row is long: no row is shorter and some row has that length |
| Pieces.Turn | tetris4k.py:80 | one `zip(*shape[::-1])` step yields one row per `zip` tuple, each as long as the mask has rows |
| Pieces.TurnN | tetris4k.py:79-80 | the mask after n passes of the turning loop |
| Pieces.TurnNLast | tetris4k.py:79-80 | pass n of the loop turns the mask that the first n - 1 passes produced |
| Pieces.TurnRect | tetris4k.py:80 | one turn maps an R x C mask to a C x R mask whose cell (i, j) is input cell (R-1-j, i) |
| Pieces.TurnFour | tetris4k.py:79-80 | four turns of a non-degenerate rectangle give the original mask back |
| Pieces.TurnNRect | tetris4k.py:79-80 | n turns give an R x C mask for even n and a C x R mask for odd n |
| Pieces.TurnNPeriod | tetris4k.py:79-80 | turning a non-degenerate rectangle n + 4 times equals turning it n times |
| Pieces.TurnNMod | tetris4k.py:79-80 | turning a non-degenerate rectangle n times equals turning it n mod 4 times |
| Pieces.Shape | tetris4k.py:76-81 | a piece's shape is its catalog mask turned by the rotation count modulo 4, so only the count modulo 4 matters |
| Pieces.TurnedCellsSize | tetris4k.py:80 | the position map of a turn, (i, j) to (j, R-1-i), is injective on any set of cells |
| Pieces.TurnKeepsCellCount | tetris4k.py:80 | a turn keeps the number of occupied cells |
| Pieces.TurnNKeepsCellCount | tetris4k.py:79-80 | any number of turns of a non-degenerate rectangle keeps the number of occupied cells |
| Pieces.ShapeBounded | tetris4k.py:76-81 | every piece shape in every rotation has 1 to 4 rows of 1 to 4 cells |
| Pieces.ShapeFourCells | tetris4k.py:76-81 | every piece shape in every rotation covers exactly four cells |
| Pieces.Spawn | tetris4k.py:69-71 | a new piece has the chosen kind, rotation 0, and the catalog mask as its shape |
| Board.EmptyGrid | tetris4k.py:59 | the starting grid is 20 rows of 10 empty cells, so no row is full |
| Board.Hits | tetris4k.py:87 | the collision relation: some occupied cell is off the left or right edge, at or below row 20, or on a settled cell |
| Board.CheckCollision | tetris4k.py:83-89 | the row-by-row scan reports a hit exactly when some occupied cell is off the left or right edge, at or below row 20, or on a settled cell |
| Board.NoHitFits | tetris4k.py:83-89 | a shape that does not collide lies entirely within columns 0..9 and rows 0..19 |
| Board.HitsOnBoard | tetris4k.py:87 | off the edges or past the bottom a shape always collides; on the board it collides exactly when it overlaps a settled cell |
| Board.Stamp | tetris4k.py:112-116 | writing a piece that lies on the board into the grid keeps the grid 20 x 10 |
| Board.StampCells | tetris4k.py:112-116 | after a lock every cell the piece covers is set, every other cell is unchanged, and rows outside the piece's rows are untouched |
| Board.LockCells | tetris4k.py:112-116 | the lock loop sets exactly the covered cells, leaves the rest alone and keeps the grid size |
| LineClear.FullRows | tetris4k.py:92-95 | the collected indices are in increasing order and all inside the grid |
| LineClear.FullRowsExact | tetris4k.py:92-95 | a row index is collected exactly when it is inside the grid and that row is full |
| LineClear.Reverse | tetris4k.py:96 | reversing an increasing index list gives a decreasing one with the same entries in the opposite order |
| LineClear.Kept | tetris4k.py:96-98 | the rows that survive a clear: none of them is full, and there are no more of them than rows in the grid |
| LineClear.KeptRows | tetris4k.py:91-98 | the kept rows number the rows minus the full ones, and they keep the grid's width |
| LineClear.DeleteRows | tetris4k.py:96-97 | deleting a decreasing list of valid indices removes one row per index |
| LineClear.DeleteFullRows | tetris4k.py:96-97 | deleting the full rows bottom-most first, with no insertions in between, leaves exactly the non-full rows in their original order |
| LineClear.NothingFull | tetris4k.py:92-95 | a grid with no full row has no line to clear |
| LineClear.KeptAll | tetris4k.py:91-98 | with no full row, clearing keeps every row |
| LineClear.NoneFullAll | tetris4k.py:91-98 | when no row is collected, the grid has no full row and clearing gives back the grid itself |
| LineClear.RefilledShape | tetris4k.py:96-98 | k empty rows on top of the kept rows make a 20 x 10 grid with no full row |
| LineClear.ClearRows | tetris4k.py:91-98 | (corrected) the cleared grid is still 20 x 10 and has no full row; it is k empty rows followed by the non-full rows in their order, and it is the old grid when k = 0 |
| LineClear.ShiftDelete | tetris4k.py:96-98 | the delete-then-insert-at-top loop keeps the row count and the row width |
| LineClear.ClearRowsAsWritten | tetris4k.py:92-98 | (as written) the source's clear keeps the grid 20 x 10 |
| LineClear.BottomTwoFull | tetris4k.py:92-95 | with rows 18 and 19 full and no other, the collected list is [18, 19] |
| LineClear.ShiftDeleteBottomTwo | tetris4k.py:96-98 | deleting 19 then 18 with an empty row inserted on top after each deletion leaves old row 18 at the bottom |
| LineClear.ShiftDeleteBottomThree | tetris4k.py:96-98 | the loop on [19, 18, 17] removes old rows 19, 17 and 15: the result is three empty rows, old rows 0-14, then old rows 16 and 18 |
| LineClear.AsWrittenLeavesFullRow | tetris4k.py:96-98 | with rows 18 and 19 full and no others, the source leaves old row 18 as the bottom row: a full row survives the clear, unlike with `ClearRows` |
| LineClear.ScoreFor | tetris4k.py:100-107 | a clear earns at most 800 points, and earns points exactly when it removes 1 to 4 rows |
| LineClear.IncreasingWithin | tetris4k.py:92-95 | an increasing index list inside [lo, hi) has at most hi - lo entries |
| LineClear.LockCompletesAtMostShapeRows | tetris4k.py:110-117 | on a grid with no full row, a lock completes only rows the piece covers, so no more rows than the shape is tall |
| Engine.SpawnFits | tetris4k.py:118-120 | a fresh piece of any kind lies on the board at (5, 0) |
| Engine.Init | tetris4k.py:56-66 | the starting state is valid, has an empty grid, the first piece with rotation 0 at column `grid_width // 2` and row 0, and score, lines and level 0 |
| Engine.ClearLines | tetris4k.py:91-108 | (corrected removal) lines grow by the number k of full rows; score grows by 0/100/300/500/800 for k = 0/1/2/3/4 and by 0 above 4; level = lines / 10; no row is left full; the piece is untouched |
| Engine.ClearLinesAsWritten | tetris4k.py:91-108 | (removal as written) the grid is the source loop's result and stays 20 x 10; lines grow by k, score by the table's points for k, level = lines / 10; the piece is untouched |
| Engine.Update | tetris4k.py:110-122 | with no collision one row down, only `y` increases by one; otherwise the locked grid is cleared (corrected removal), lines grow by the number k of completed rows, score grows by the table's points for k, level = lines / 10, and the new piece has rotation 0 at (5, 0) |
| Engine.UpdateAsWritten | tetris4k.py:110-122 | the same as `Update`, except that the locked grid is cleared by the source's loop as written |
| Engine.MoveLeft | tetris4k.py:179-181 | the piece moves one column left exactly when it would not collide there; otherwise nothing changes |
| Engine.MoveRight | tetris4k.py:182-184 | the piece moves one column right exactly when it would not collide there; otherwise nothing changes |
| Engine.TryRotate | tetris4k.py:163-168 | a rotate attempt changes only the rotation; on collision the count returns to its prior value, otherwise it advances by one and the turned piece does not collide |
| Engine.InitValid | tetris4k.py:56-66 | the initial state satisfies the engine invariant |
| Engine.UpdateFallOnBoard | tetris4k.py:110-122 | a tick in which the row below is free keeps the piece on the board and leaves the grid alone |
| Engine.UpdateLockValid | tetris4k.py:110-120 | a tick that locks the piece keeps the invariant: no full row remains and the new piece is on the board |
| Engine.UpdateValid | tetris4k.py:110-122 | a tick keeps the invariant: the piece stays on the board, no row is full, level = lines / 10 |
| Engine.LockClearsAtMostFour | tetris4k.py:99-117 | from a valid state one lock of the corrected engine adds at most 4 lines and at most 800 points |
| Engine.MoveLeftOnBoard | tetris4k.py:179-181 | a guarded left move keeps the piece on the board |
| Engine.MoveRightOnBoard | tetris4k.py:182-184 | a guarded right move keeps the piece on the board |
| Engine.TryRotateOnBoard | tetris4k.py:163-168 | a rotate-with-revert keeps the piece on the board |
| Engine.RotateRevert | tetris4k.py:164-168 | a rotation that collides at the current anchor leaves the whole state unchanged |
| Engine.UpdateAsWrittenFallOnBoard | tetris4k.py:110-122 | with the source's removal, a tick in which the row below is free keeps the piece on the board and leaves the grid alone |
| Engine.UpdateAsWrittenLockOnBoard | tetris4k.py:110-120 | with the source's removal, a tick that locks the piece puts the new piece on the board and keeps the grid 20 x 10 |
| Engine.UpdateAsWrittenOnBoard | tetris4k.py:110-122 | with the source's removal, every tick keeps the piece on the board, the rotation in 0..3 and level = lines / 10 |
| Engine.AsWrittenUpdateDiffers | tetris4k.py:91-117 | when a lock completes rows 18 and 19 and no other, the source's engine ends with old row 18 at the bottom, keeps a full row, and differs from the corrected engine |
| Engine.Step | tetris4k.py:152-191 | any single intent keeps the invariant and never lowers score or lines; moves and rotations leave grid, score, lines and row alone |
| Engine.Run | tetris4k.py:152-191 | any sequence of intents from a valid state ends in a valid state, with score and lines never lower |
| Engine.StepAsWritten | tetris4k.py:152-191 | with the source's removal, any single intent keeps the piece on the board and never lowers score or lines; moves and rotations leave grid, score, lines and row alone |
| Engine.RunAsWritten | tetris4k.py:152-191 | with the source's removal, any sequence of intents keeps the piece on the board, so every lock writes inside the grid, and never lowers score or lines |

## Left out

- Engine.ClearLines: removes the full rows as evidently intended (`ClearRows`), not with the loop at tetris4k.py:96-98. When two or more rows are full the source gives a different grid; `Engine.ClearLinesAsWritten` models the source's loop.
- Engine.Update: the lock branch clears rows with the corrected removal, so its grid differs from the source's whenever a lock completes two or more rows. `Engine.UpdateAsWritten` is the tick as written, and `Engine.AsWrittenUpdateDiffers` shows the difference.
- Engine.Valid: the "no row is full" half holds only in the corrected engine (`Update`, `Step`, `Run`). The source's loop can leave a full row, so for `UpdateAsWritten`, `StepAsWritten` and `RunAsWritten` only `OnBoard` is proved.
- Engine.LockClearsAtMostFour: holds only in the corrected engine. Its argument needs a grid with no full row before the lock. In the source a full row can survive a clear (`AsWrittenLeavesFullRow`) and is then collected again at the next lock, so no bound is claimed for `UpdateAsWritten`.
- Audio: `play_tetris_theme` and the thread that starts it (tetris4k.py:34-53). These are foreign PyAudio calls, floating-point synthesis, and a detached thread that shares no state with the game.
- Rendering: `draw` and the screen and font setup (tetris4k.py:8-20, 124-142). These are pygame calls that only read the state.
- Timing: event polling and wall-clock timing in the main loop (tetris4k.py:147-194). This covers `get_ticks`, `clock.tick`, and the `drop_speed - level * 2` comparison. Key handling becomes the `Intent` values `Left`, `Right`, `Rotate` and `Tick`, and `Run` accepts them in any order. So the order within one frame (left, then right, then a tick) is one of the runs covered. `drop_speed` is therefore not a field of `Game`.
- Random choice: `random.choice` (tetris4k.py:70) becomes the caller-supplied `Kind` of the next piece.
- Negative rows: a piece row above the top of the board cannot arise, because `piece_y` is only set to 0 or incremented. Python's negative indexing would make a model of it misleading, so `y` is a `nat`, and nothing is claimed about rows above the board.
- Out-of-range locks: `Engine.Update` and `Engine.UpdateAsWritten` require the piece to lie on the board. Outside that, the lock loop at line 116 would raise an index error or wrap around. The requirement is `OnBoard`, which holds in every state reachable from `Init` in both engines, by `Engine.Run` and `Engine.RunAsWritten`.
- Game over: the source has no game-over condition, and none is added. A spawn onto settled cells simply goes on.

## Findings

| source | as written | input that shows it | evidently intended | confidence | as-written member | corrected member |
|---|---|---|---|---|---|---|
| tetris4k.py:96-98 | the full rows are deleted bottom-most first, and an empty row is inserted at index 0 straight after each deletion. Each insertion moves every remaining row one place down, so deletion number t (counting from 0) lands t rows higher than the full row it names: it can leave a full row in place and delete a row that was not full | a grid whose rows 18 and 19 are full and no other: the loop deletes row 19, then index 18, which now holds old row 17; old row 18 (full) ends up as row 19. With rows 17-19 full it deletes old rows 19, 17 and 15 (`ShiftDeleteBottomThree`) | all full rows removed, the same number of empty rows on top, the other rows in their original order, no full row left | high (derived by hand and proved; not executed) | LineClear.AsWrittenLeavesFullRow | LineClear.ClearRows |
