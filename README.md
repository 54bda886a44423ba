# Tetris game engine, modelled in Dafny

This project models the game-state engine of a small browser Tetris
(`game.js`): the 12-by-20 playing field (`arena`), the falling piece
(`player`: its matrix, its position and the score), and the operations that
build, test and rewrite them:

- building an empty grid;
- the collision test;
- locking a piece into the field;
- the line-clear sweep;
- the quarter turn of a piece;
- the four player commands: move, drop, rotate with its wall-kick search,
  and reset (spawn);
- the drop-timer step of the game loop.

Modules:

- `Board` (`board.dfy`): grids as values `seq<seq<int>>`.
  - `CreateMatrix` and `Collide` are loop methods. They are proved equal to
    the functions `ZeroRows` and `Collides`.
  - `Merged` is the grid after a lock.
  - `Collides` treats every cell off the grid as blocked: a read
    `arena[r][c]` outside the grid yields `undefined`, and `undefined !== 0`
    holds, for rows and columns alike.
- `Rotation` (`rotation.dfy`): the quarter turn.
  - `Rotate` is the loop method. `Rotated` is its value.
  - It includes lemmas on two and four turns.
  - It includes the wall-kick search: the offsets 1, -2, 3, -4, ..., the
    shifts they add up to and the number of positions tried (`Tries`).
- `Shapes` (`shapes.dfy`): the catalog of seven kinds named by "ILJOTSZ", and
  `createPiece` on top of `String.indexOf`. As in the game, the T and Z
  entries are the same matrix.
- `LineClear` (`line_clear.dfy`): the meaning of a sweep as values.
  - Which rows are full, and how many.
  - The swept grid: one empty row on top for each full row, then the rows
    that were not full, in order.
  - It includes the lemmas the sweep loop needs.
- `Engine` (`engine.dfy`): the game itself.
  - The datatype `State` holds the field, the piece matrix, its column and
    row, and the score.
  - The pure transitions `Spawn`, `Move` and `Drop` act on `State`.
  - The invariant `Playable` holds between commands:
    - the field has its size, holds only 0 and 1, and has no full row;
    - the score is a non-negative multiple of 10;
    - the piece has at least one row, can be turned, and has every row and
      column of its turning box occupied;
    - the piece lies on the field.
  - The class `Game` holds the global state as fields. Its methods follow the
    source's functions one by one and state their new state as the
    transition function applied to the old state. `Valid()` is `Playable` of
    the fields. The constructor establishes it, and every command that
    requires it preserves it.

The random choice of the next piece (`Math.random` in `playerReset`) is a
parameter `next`, a catalog index from 0 to 6. The frame time stamp of
`update` is an integer parameter.

Three behaviours of the code that the model keeps as they are:

- When the wall kick gives up, the code turns the piece a second time in the
  same direction (game.js:155). The piece ends up half-turned at its
  original column, not back in its old orientation.
- `merge` writes the shape's own cell value into the field (game.js:54). In
  the catalog that value is always 1; there is no colour index per kind.
- A spawned piece is the catalog entry itself, not a copy (game.js:78). No
  operation writes into a piece matrix, so with values this makes no
  difference.

The kick search tests `Tries(w)` positions, where w is the row count of the
turned piece: the first even number that is at least 2 and at least w. For
every piece (w >= 1) that is at most w + 1.

## Model

| member | source | states |
|---|---|---|
| Board.ZeroRows | game.js:41-47 | `k` rows of `w` zeros: the value `createMatrix(w, k)` builds |
| Board.Covers | game.js:53 | piece cell (i, j) exists and is occupied |
| Board.Blocked | game.js:66-67 | a field cell stops a piece cell when it is off the grid (the read is `undefined`, which is `!== 0`) or nonzero |
| Board.Collides | game.js:61-73 | some occupied piece cell, shifted by the offset, lands on a blocked cell |
| Board.Merged | game.js:50-58 | the field with every covered cell set to the piece's value; it has the field's row count |
| Board.Zeros | game.js:44 | the row has the given width and every cell is 0 |
| Board.CreateMatrix | game.js:41-47 | the loop builds exactly `h` rows of `w` zeros |
| Board.Collide | game.js:61-73 | reports a hit exactly when some occupied piece cell, shifted by the offset, is off the grid (row or column) or lands on a nonzero cell; changes nothing |
| Board.FreeIsInBounds | game.js:61-73 | a placement that does not collide has every occupied cell on the grid |
| Board.CollidesOnEmptyGrid | game.js:61-73 | on an all-zero grid, a placement collides exactly when some occupied cell falls off the grid |
| Board.MergedCells | game.js:50-58 | after a lock the grid keeps its shape, every covered cell holds the piece's value and every other cell keeps its value |
| Board.MergedBlocksSamePlace | game.js:50-58 | once a piece with an occupied cell is locked, the same piece at the same place collides |
| Board.MergedBinary | game.js:50-58 | locking a 0/1 piece into a 0/1 grid leaves a 0/1 grid |
| Rotation.Rotated | game.js:117-126 | the quarter turn as a value: n rows (n the input's row count), entry (x, n-1-y) is entry (y, x) of the input |
| Rotation.Rotate | game.js:117-126 | the loop builds a fresh n-by-n matrix (n the row count) equal to the quarter turn, whose entry (x, n-1-y) is entry (y, x) of the input; the input is a value and is not changed |
| Rotation.RotatedIsSquare | game.js:118-119 | a turned matrix is n-by-n and can be turned again |
| Rotation.HalfTurn | game.js:117-126 | two turns map entry (i, j) to entry (n-1-i, n-1-j) |
| Rotation.FourTurnsIdentity | game.js:117-126 | four turns of a square matrix give it back |
| Rotation.RotatedBinary | game.js:117-126 | a turn keeps a 0/1 matrix 0/1 |
| Rotation.RotatedFillsBox | game.js:117-126 | a turn keeps every row and column of the turning box occupied |
| Rotation.HalfTurnInBounds | game.js:154-156 | a half-turned piece put back at the original column lies on the field whenever the piece did |
| Rotation.Offset | game.js:149-153 | the j-th offset of the search: 1, -2, 3, -4, ... |
| Rotation.Shift | game.js:152 | the total shift after j offsets have been added to the column |
| Rotation.Tries | game.js:149-158 | the number of positions the search tests is even, at least 2 and at least the piece width, no larger than needed, and at most the width plus 1 |
| Rotation.ShiftClosedForm | game.js:152-153 | after j offsets the total shift is (j+1)/2 for odd j and -j/2 for even j: the search visits x+1, x-1, x+2, x-2, ... |
| Rotation.ShiftsCover | game.js:152-153 | the first 2k+1 positions of the search cover every column within distance k of the start, each exactly once |
| Rotation.KickStep | game.js:153-154 | one step negates the offset and moves it one further from 0, and the search gives up exactly after `Tries` steps |
| Rotation.FirstFree | game.js:151-159 | a column is the first one of the search order where the piece does not collide |
| Rotation.AllBlocked | game.js:151-158 | the piece collides at each of the first t columns of the search order |
| Rotation.KickSearch | game.js:148-159 | the search terminates; on success the column is the first one in search order where the piece does not collide, and all earlier ones collide; on giving up every tested column collides and the column is the start again |
| Shapes.IndexOf | game.js:77 | the index of the first occurrence of the letter, or -1 exactly when the letter does not occur |
| Shapes.CreatePiece | game.js:76-79 | a shape is returned exactly for the seven kind letters, and it is a catalog entry |
| Shapes.CreatePieceOfLetter | game.js:76-79 | the letter at position i names catalog entry i |
| Shapes.CatalogShape | game.js:19-27 | each catalog shape has one or two rows of equal width at most 4, holds only 0 and 1, can be turned and fills its turning box |
| Shapes.TAndZAlike | game.js:24-26 | the T and Z entries are two different kinds with the same matrix |
| LineClear.IsFull | game.js:104-108 | no cell of the row is 0 |
| LineClear.FullCount | game.js:102-114 | the number of full rows, at most the row count |
| LineClear.Swept | game.js:102-114 | the swept field: one empty row per full row on top, then the rows that were not full in their order; it has as many rows as the field |
| LineClear.ScanRow | game.js:104-108 | the scan reports a full row exactly when no cell is 0 |
| LineClear.NonFull | game.js:102-114 | the kept rows number the rows less the full rows |
| LineClear.NonFullRows | game.js:102-114 | every kept row is a row of the grid and is not full |
| LineClear.SweptShape | game.js:102-114 | a sweep keeps the row count and every row's width, and leaves no full row when the width is positive |
| LineClear.SweptBinary | game.js:102-114 | a sweep keeps a 0/1 grid 0/1 |
| LineClear.NothingFull | game.js:102-114 | with no full row the sweep counts nothing and keeps every row |
| LineClear.SplitRows | game.js:102-114 | counting and keeping full rows distribute over stacking two grids |
| LineClear.SweepIdempotent | game.js:102-114 | sweeping twice is sweeping once, and the second sweep clears nothing |
| LineClear.SweepOneFullRow | game.js:103-112 | with exactly one full row, between the rows above and the rows below it, the result is an empty row on top, then the rows above, then the rows below; one row is counted |
| LineClear.SweepStepFull | game.js:109-111 | taking out the full row under examination and putting an empty row on top advances the loop state by one row and one count |
| LineClear.SweepStepKeep | game.js:104-107 | passing over a row that is not full advances the loop state by one row |
| Engine.SweepRow | game.js:103-113 | one turn of the sweep loop keeps the loop state and either takes out one full row, adds 10 to the score and stays at the same index, or moves one row up with the score unchanged |
| Engine.SweepField | game.js:102-114 | the sweep loop yields exactly the swept grid and the score plus 10 per full row |
| Engine.MergeField | game.js:50-58 | the merge loop yields exactly the grid with the piece locked in |
| Engine.ClearField | game.js:168 | every cell of the field becomes 0 |
| Engine.SpawnX | game.js:166 | the spawn column: half the field width less half the piece width, each rounded down |
| Engine.Spawn | game.js:162-171 | the piece becomes catalog entry `next` in row 0 at the spawn column; the field and score are kept, or both reset when that spawn collides |
| Engine.Move | game.js:140-145 | the column moves by `dir` unless the piece then collides; field, piece, row and score never change |
| Engine.Drop | game.js:129-138 | the piece moves down a row if free there; otherwise it is locked at its row, the field swept, 10 points per full row added and piece `next` spawned |
| Engine.KickOutcome | game.js:147-160 | the turn and kick end either at the first free column of the search with the piece turned once, or, every tested column colliding, at the original column with the piece turned twice |
| Engine.EmptyArena | game.js:8 | the initial field has the field's size, holds only 0 and has no full row |
| Engine.SpawnInBounds | game.js:165-166 | a centred spawn in row 0 lies on any field of the field's size |
| Engine.SpawnFreeOnEmpty | game.js:165-167 | a centred spawn never collides with an empty field |
| Engine.SpawnPlayable | game.js:162-171 | a spawn gives a playable state, whether the game goes on or is over and restarts |
| Engine.MovePlayable | game.js:140-145 | a move keeps a state playable |
| Engine.MoveRoundTrip | game.js:140-145 | from a free position, a move that succeeds followed by the opposite move gives the start back |
| Engine.LockedArena | game.js:50-58 | locking a piece that lies on the field keeps the field's size and its 0/1 values |
| Engine.SweptArena | game.js:102-114 | a swept field has the field's size, holds 0/1 and has no full row |
| Engine.DropLocks | game.js:131-135 | when the piece collides one row down: the new piece is catalog entry `next` in row 0 at the spawn column; if it is free there, the field is the swept locked field and the score has gained exactly 10 per full row of the locked field; otherwise field and score are reset |
| Engine.DropPlayable | game.js:129-138 | a drop keeps a state playable |
| Engine.KickKeepsPiece | game.js:147-160 | after a turn with its kick search the piece can still be held and lies on the field, in the found column or half-turned at the original column |
| Engine.Game.constructor | game.js:8-15 | a new game has an empty field, score 0, a zero timer, and the first piece spawned, and is playable |
| Engine.Game.Merge | game.js:50-58 | the field becomes the locked grid, stays of the field's size and 0/1; nothing else changes |
| Engine.Game.ArenaSweep | game.js:102-114 | the field becomes the swept field with no full row and the score gains exactly 10 per full row |
| Engine.Game.PlayerReset | game.js:162-171 | the piece becomes catalog entry `next` at row 0 and the centred column; if it collides there the field is emptied and the score set to 0, otherwise both are unchanged |
| Engine.Game.PlayerMove | game.js:140-145 | the column changes by `dir` if the piece does not collide there, and nothing changes otherwise; the state stays playable |
| Engine.Game.PlayerDrop | game.js:129-138 | the piece moves one row down if it does not collide there, otherwise it is locked, the field swept and a new piece spawned; the timer is 0 and the state stays playable |
| Engine.Game.LockPiece | game.js:132-135 | locking, sweeping and spawning give exactly the locking outcome of a drop |
| Engine.Game.PlayerRotate | game.js:147-160 | the piece is turned and put at the first free column of the kick search, or, when every tested column collides, half-turned at its original column; row, field and score do not change and the state stays playable |
| Engine.Game.Update | game.js:174-185 | the timer gains the time since the last frame and, once it exceeds 1000, the piece drops and the timer restarts; otherwise nothing else changes |

## Left out

- Drawing, the colour table, the canvas, the score display and the keyboard
  listener (`drawMatrix`, `draw`, `colors`, the `keydown` handler): rendering
  and input. The four commands are methods that a caller invokes directly.
- `requestAnimationFrame` and floating-point time stamps: `Update` takes an
  integer time stamp and its caller stands for the animation loop.
- `Math.random`: replaced by the parameter `next`; randomness is not modelled.
- The initial `update()` call at start-up is `Update(0, next)` on a new game;
  it is not a separate member.
- Engine.Game.PlayerRotate: the turned matrix and the search column are
  computed in locals (`Rotate`, `KickSearch`) and written to the fields once
  at the end. The source writes `player.matrix` and `player.pos.x` as it
  goes; the final state is the same.
- Engine.Game.ArenaSweep, Engine.Game.Merge, Engine.Game.PlayerReset: the
  loops run on the field as a value (`SweepField`, `MergeField`,
  `ClearField`), and the field is assigned once at the end. Row aliasing is
  not modelled: in the source `splice` and `unshift` move the same row object
  to the top, and `fill` and the cell writes change rows in place.
- The commands require `Valid()`: a field of the right size and a piece on
  it. The source has no such check; every state the game reaches satisfies
  it, because the constructor establishes it and every command keeps it.
- Engine.Game.Merge: requires every occupied piece cell to lie on the field.
  In the source, a write outside the rows throws, and a write past the end of
  a row extends that row; neither can happen from a playable state.
