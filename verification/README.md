# A verified model of the ColorTetris engine

This project models the falling-block engine of ColorTetris, the class `Tetris` in `tetris.py` together with its shape table `SHAPES`, in Dafny. The engine keeps the following state:

- a 20 by 10 grid of integers, where 0 is an empty cell and 1..7 is a colour;
- the active piece, a 0/1 matrix anchored at column `shape_x` and row `shape_y`, with its colour index;
- the next piece and its colour;
- the score, the fixed level with its fall speed, and the time of the last gravity step;
- the one-way `game_over` flag.

The host drives the engine with these commands:

- move left or right, rotate, soft drop and hard drop;
- the gravity timer `update`;
- `lock_shape` and `new_shape`, which the drops call.

The project is organised as follows:

- `pieces.dfy` (module `Pieces`) holds the seven tetromino matrices and the rotation `zip(*shape[::-1])`. The rotation is proved to be a clockwise quarter turn that gives back the original after four turns.
- `playfield.dfy` (module `Playfield`) covers the grid.
  - Collision: the predicate `Collides` and the engine's nested collision loop `CheckCollision`.
  - Locking a piece: the cell-writing loop `WritePiece` and the row-clearing loop `ClearFullRows`, which deletes a full row and inserts an empty one on top.
  - Hard drops: the descent loop `FindLandingRow`.
  - Each loop is proved against a specification function: `Place`, `Cleared`/`FullCount` and `LandingRow` respectively.
- `rules.dfy` (module `Rules`) holds the engine's state as a value `State`, the invariant `Inv`, and every command as a function of the state:
  - `Spawn`, `Settle`, `Lock`, `Move`, `Turn`, `Drop` and `HardDrop`.
  - Its lemmas prove that every command keeps the invariant.
  - It also states the score law, the bound of four cleared lines, and the undo of a move.
- `tetris.dfy` (module `Engine`) holds the class `Tetris`, whose fields mirror the source's attributes.
  - Every command is a method with a `modifies` frame naming exactly the fields it may change.
  - Every method is proved to leave the fields as a `Rules` function, or an explicit update of the old state, says (`Snapshot() == Rules.X(old(Snapshot()), ...)`). `Update` has one such case for each outcome of its timer test.
  - Every method is also proved to keep `Valid()`.

The invariant `Inv` says, whether or not the game is over:

- the grid is 20 by 10;
- its cells hold 0..7;
- no row is full;
- the active and next pieces are rectangles of at most 4 by 4 with an occupied cell;
- the colour indices are 0..6 and the score is not negative.

While the game is not over, it also says that the active piece sits at row 0 or below without colliding.

As a consequence, every cell `lock_shape` writes is inside the grid and was empty.

Randomness and time are parameters:

- A `Draw(shape, color)` stands for one call of `choose_shape` plus one call of `choose_next_color`. It is constrained by `ValidDraw`: the shape index is 0..6, or 0..4 when S and Z are excluded, and the colour is 0..6.
- `now` stands for `pygame.time.get_ticks()`.

The host sends the commands only while the game is not over (`tetris.py:616`, `tetris.py:1078`). So the commands require `!gameOver` instead of inventing a no-op.

S and Z exclusion follows the code, not a construction-time setting:

- `__init__` runs with `self.game = None`, so the first active piece and the first next piece are drawn from all seven shapes.
- Only `start_game` (`tetris.py:948-954`) attaches the host and draws the next piece again with the S/Z filter.
- The class therefore has a mutable `excludeSz` field. It is false after construction, and `AttachHost` sets it.
- As a result, the very first active piece can be S or Z even when S and Z are disabled.

## Model

| member | source | states |
|---|---|---|
| Pieces.ShapesArePieces | tetris.py:14-22 | Every entry of the shape table is a rectangle of at most 4 by 4 with an occupied cell, and its bottom row is occupied in column 1. |
| Pieces.MinWidth | tetris.py:171 | `zip` stops at the shortest row: the width is at most every row's length and equals some row's length. |
| Pieces.Transpose | tetris.py:171 | `zip(*s)`: row j of the result is column j of `s`, for each column up to the shortest row. |
| Pieces.Rotate | tetris.py:171 | `zip(*s[::-1])`: the rows reversed, then transposed. |
| Pieces.RotateCells | tetris.py:169-173 | On a rectangle, `zip(*s[::-1])` swaps height and width and puts cell `s[h-1-j][i]` at `[i][j]`, a clockwise quarter turn. |
| Pieces.RotateFourTimes | tetris.py:171 | Four rotations give back the original matrix. |
| Pieces.RotateKeepsPiece | tetris.py:171 | A rotated piece is still a piece: a rectangle within 4 by 4 with an occupied cell. |
| Pieces.SquareIsRotationFixed | tetris.py:16 | The O piece rotates into itself. |
| Pieces.BarAlternates | tetris.py:15 | The I piece changes under one rotation and is back after two. |
| Playfield.Collides | tetris.py:158-167 | What `check_collision` decides: some occupied cell of the piece at (x, y) is outside the side walls, at or below row 20, or on a nonzero grid cell at row 0 or below. |
| Playfield.CheckCollision | tetris.py:158-167 | The nested scan returns true exactly when some occupied cell has its column outside 0..9, its row at 20 or below, or lands on a nonzero cell at row 0 or below. A cell above the top collides only with the side walls. |
| Playfield.FreePlacementAboveFloor | tetris.py:158-167 | A piece that does not collide has its anchor above the floor, so each descent loop stops. |
| Playfield.Place | tetris.py:209-212 | Writing a piece's cells into the grid keeps it 20 rows of 10. |
| Playfield.PlaceInsideGrid | tetris.py:209-212 | A non-colliding piece at row 0 or below writes only inside the grid and only on empty cells, each of which gets the value; every other cell keeps its value. |
| Playfield.WritePiece | tetris.py:209-212 | The cell-writing loop computes exactly the grid `Place` describes. |
| Playfield.FullRow | tetris.py:216 | `all(row)`: every cell of the row is nonzero. |
| Playfield.FullCount | tetris.py:214-219 | The `lines` count of the clear loop: the number of full rows in the grid. |
| Playfield.Survivors | tetris.py:214-219 | The non-full rows in their order; their number plus the number of full rows is the height of the grid. |
| Playfield.SurvivorsRows | tetris.py:214-219 | The kept rows are exactly the rows that are not full. |
| Playfield.Cleared | tetris.py:214-219 | The grid after the clear loop: one empty row for each full row on top, then the non-full rows in their original order. |
| Playfield.ClearFullRows | tetris.py:214-219 | The top-to-bottom loop with `del grid[row]` and `insert(0, [0]*10)` yields `Cleared(g)`, and `lines` is the number of full rows. |
| Playfield.ClearedRows | tetris.py:214-219 | Clearing keeps the height and leaves no full row. It puts `lines` empty rows on top; every other row is an original, non-full row. It keeps a 20 by 10 grid with cells in 0..7. |
| Playfield.SurvivorsAppend | tetris.py:215-218 | Clearing keeps the relative order: the kept rows of an upper part stay above the kept rows of a lower part. |
| Playfield.NothingToClear | tetris.py:214-219 | A grid without full rows is left unchanged and counts zero lines. |
| Playfield.ClearedIdempotent | tetris.py:214-219 | Clearing a cleared grid changes nothing. |
| Playfield.LinesAtMostPieceHeight | tetris.py:209-219 | Writing a piece into a grid with no full row fills at most as many rows as the piece is tall. |
| Playfield.LandingRow | tetris.py:191-198 | The landing row is at or below the start row, every one-row step down to it is free, and the step after it collides. |
| Playfield.FindLandingRow | tetris.py:191-198 | The descent loop stops exactly at the landing row. |
| Playfield.LandingOnEmptyGrid | tetris.py:191-198 | On the empty grid, a piece whose bottom row is occupied lands with that row on the floor. |
| Rules.ShapeChoices | tetris.py:142-145 | The shapes on offer: all seven, or `available_shapes`, the table without S and Z (indices 5 and 6), when they are excluded. |
| Rules.ChooseShape | tetris.py:140-145 | The draw's shape index taken from all seven shapes, or from the first five when S and Z are excluded. |
| Rules.ChooseShapeRange | tetris.py:140-145 | Every draw picks a piece from the table. It is never S or Z when those are excluded, and it is any of the seven otherwise. |
| Rules.Points | tetris.py:233-235 | The points for one lock: `10 * lines` times `lines`. |
| Rules.SpawnX | tetris.py:153 | The spawn column `10 // 2 - width // 2`, centring the piece. |
| Rules.Spawn | tetris.py:147-156 | `new_shape`: the next piece and colour become active at (SpawnX, 0), the draw becomes the next piece, and the game is over if it was already or the spawn collides. |
| Rules.FallSpeed | tetris.py:105 | `max(50, 1000-(level-1)*100)` is at least 50, equals 1100-100·level up to level 10, and is 50 from level 11 on. |
| Rules.Settle | tetris.py:209-235 | Writing, clearing and scoring keep a 20 by 10 grid and leave the next piece alone. |
| Rules.SpawnEstablishesInv | tetris.py:147-156 | Spawning from a settled state gives a valid active piece, which is free at row 0 unless the game is over. |
| Rules.SettleKeepsSettled | tetris.py:209-235 | Locking a free piece leaves a 20 by 10 grid with cells in 0..7 and no full row. At most 4 lines are cleared. |
| Rules.Lock | tetris.py:207-242 | `lock_shape`: settle the piece (write, clear, score), then spawn the next one. |
| Rules.LockKeepsInv | tetris.py:207-242 | Locking keeps the invariant. |
| Rules.LockScore | tetris.py:233-235 | A lock adds exactly 10·lines·lines points, one of 0, 10, 40, 90 and 160, so the score never decreases. |
| Rules.Move | tetris.py:175-178 | `move`: x shifts by dx unless the shifted piece collides; otherwise nothing changes. |
| Rules.MoveKeepsInv | tetris.py:175-178 | A guarded move keeps the invariant. |
| Rules.MoveUndo | tetris.py:175-178 | An accepted move shifts only `x`, and the opposite move undoes it. |
| Rules.MoveIntoLeftWall | tetris.py:175-178 | Moving left a piece that touches the left wall changes nothing. |
| Rules.Turn | tetris.py:169-173 | `rotate`: the shape becomes its clockwise turn at the same anchor unless the turned piece collides; otherwise nothing changes. |
| Rules.TurnKeepsInv | tetris.py:169-173 | A guarded rotation keeps the invariant. |
| Rules.Drop | tetris.py:180-185 | `drop`: y grows by one unless the piece would collide there, in which case it locks at its current row. |
| Rules.DropKeepsInv | tetris.py:180-185 | A soft drop, either one row down or a lock in place, keeps the invariant. |
| Rules.LandingKeepsInv | tetris.py:191-198 | The landing row is free and at or below the current row. |
| Rules.HardDrop | tetris.py:187-199 | `hard_drop`: the piece moves to its landing row and locks there. |
| Rules.HardDropKeepsInv | tetris.py:187-199 | A hard drop keeps the invariant. |
| Rules.SpawnFreeOnEmptyGrid | tetris.py:147-156 | Every piece spawns free on the empty grid, so the first spawn never ends the game. |
| Rules.BarLandsOnBottomRow | tetris.py:187-199 | The I piece, hard-dropped from its spawn on the empty grid, lands on row 19. |
| Engine.Tetris.constructor | tetris.py:89-107 | Creates an empty grid, score 0 and the fall speed of the level. The first draw is spawned as the active piece at the centre of row 0, the second becomes the next piece, the game is not over, and the invariant holds. |
| Engine.Tetris.AttachHost | tetris.py:948-954 | Sets the S/Z exclusion and replaces only the next piece and its colour, keeping the invariant. |
| Engine.Tetris.NewShape | tetris.py:147-156 | Fields become `Spawn` of the old fields. The next piece becomes active at `10//2 - width//2`, row 0, and the game is over exactly when it was already over or that placement collides. The invariant is established. |
| Engine.Tetris.Move | tetris.py:175-178 | Changes only `shapeX`, to `Rules.Move` of the old state, and keeps the invariant. |
| Engine.Tetris.Rotate | tetris.py:169-173 | Changes only `currentShape`, to `Rules.Turn` of the old state, and keeps the invariant. |
| Engine.Tetris.Drop | tetris.py:180-185 | Moves the piece one row down, or restores the row and locks it, as `Rules.Drop` says. Keeps the invariant. |
| Engine.Tetris.HardDrop | tetris.py:187-199 | Records the ghost position as (`shapeX`, landing row), locks the piece at the landing row as `Rules.HardDrop` says, and keeps the invariant. |
| Engine.Tetris.LockShape | tetris.py:207-243 | Fields become `Rules.Lock` of the old fields, and the invariant is kept. |
| Engine.Tetris.SettlePiece | tetris.py:209-235 | Grid and score become `Rules.Settle` of the old state: a 20 by 10 grid with cells in 0..7 and no full row. |
| Engine.Tetris.Update | tetris.py:245-249 | When more than `fallSpeed` ms have passed, it drops and sets `lastFall := now`; otherwise nothing changes. It keeps the invariant. |

## Left out

- Particles (`Particle`, `update_particles`, the particle loop in `lock_shape`): floating point and randomness, purely cosmetic.
- The score-effect text, scale and colour, the hard-drop shake flag, `hard_drop_shape`, the ghost-effect flag and frame counter, and `get_shape_color`: cosmetic or rendering. The ghost position itself is kept (`ghostX`, `ghostY`).
- The classes `Game` and `Button`: rendering, menus, settings and the event loop. Of `Game` only the S/Z re-draw in `start_game` is modelled, as `AttachHost`.
- The distributions of `random.choice` and `random.randint`: every draw is an input constrained to a valid shape index and a colour in 0..6.
- `pygame.time.get_ticks()`: the time is the parameter `now` of the constructor and of `Update`.
- The `self.game` back-reference beyond its S/Z setting. After a hard drop the engine reads `ghost_shape_enabled` (tetris.py:203). After a lock that clears lines it reads the host's grid geometry for each occupied cell left (tetris.py:229-230). Both reads only drive effects.
- The error path of those reads. Without an attached host, both would raise AttributeError in the source. The model drops that path and lets `HardDrop` and a line-clearing `LockShape` run before `AttachHost`. The program never reaches this case, because `start_game` attaches the host right after constructing the engine (tetris.py:949-950).
- Commands after game over: the host never sends them, so the methods require `!gameOver`.
- `current_shape = None` before the first spawn is modelled as an empty matrix. `game_over`, which the source first assigns after the first spawn, starts as false. The first spawn is on the empty grid and never collides, so neither is observable.
- In-place update of the grid's row lists. The grid is a sequence of rows held in a field. The cell-writing and row-clearing loops build the new grid as a value, and `LockShape` assigns it back, so aliasing between rows (there is none in the source: every row is a fresh list) is not modelled.
- `HardDrop` runs the source's two identical descent loops (one on `ghost_y`, one on `shape_y`) as two calls of the one loop method `FindLandingRow`.
- Rows produced by `zip` are tuples in the source and sequences here. Cells are only indexed and tested against zero, so the two behave the same.
