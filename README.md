# Tetris game logic in Dafny

A model of the game logic of a small falling-block game written in Rust on
the ggez engine (`src/main.rs`), with rendering and the window shell
removed. The model has the same four parts as the program:

- **Grid** (`grids.dfy`, module `Grids`): a board of 20 rows of 10 `u8`
  cells. A cell whose value is below `NUM_COLOURS` (7) is locked in that
  colour, and 255 is empty. The board rules are pure functions on values
  (`FreeOrAbove`, `SetCell`, `CheckLine`). Class `Grid` owns the rows as an
  `array<seq<u8>>`. Its methods `Set` and `CheckForLine` update it in place,
  as the source does, and are proved equal to those functions.
- **Piece** (`pieces.dfy`, module `Pieces`): the seven shapes, coloured by
  their index. It also has the two quarter-turn rotations, written as loops
  over the four offsets and proved equal to `RotatedLeft`/`RotatedRight`,
  the absolute cells (`Points`), and the spawn position of a moving piece.
- **Lock step** (`locking.dfy`, module `Locking`, with `sorted_sets.dfy`
  standing in for the `BTreeSet` of touched rows): writing a piece's cells
  one by one, stopping at the first cell off the board, then checking the
  touched rows in ascending order and scoring the rows cleared.
- **GameState** (`game.dfy`, module `Game`): a class with the board, the
  game-over flag, the `u8` move timer, the score, the next piece and the
  optional falling piece. Its methods are `Mv` (move or rotate if the
  candidate fits), `MoveDown` (soft drop), `Tick` (one pass of the update
  loop) and `KeyDown` (key dispatch). The random generator is replaced by
  a `draw` argument in `0..7`.

Coordinates are unbounded integers. The source stores them as `i8`, so
`GameState.Valid()` keeps the falling piece's pivot inside `-2..11 ×
-2..21`, with offsets within two cells. `CandidatesFitI8` shows that
every coordinate the game computes from such a piece fits in `i8`. The
move timer is a `u8` newtype, so the verifier checks every addition to it.

Three details of the code that the model keeps:

- The timer advances on every tick, also after game over, and also when a
  piece is spawned.
- The timer fires when it *exceeds* 18, and then 18 is subtracted (it is
  not reset to 0).
- A lock that fails leaves the cells written before the failing write, and
  keeps the falling piece.

## Model

| member | source | states |
|---|---|---|
| Basics.AsUsize | src/main.rs:121-122 | an `i8` cast to `usize` keeps a non-negative value and sends a negative one beyond every row and column |
| Pieces.Shape | src/main.rs:145-161 | draw `k` in `0..7` gives colour `k`, and every table entry has four distinct offsets within two cells of the pivot |
| Pieces.ShapesSitAtOrAbovePivot | src/main.rs:148-154 | every shape's offsets lie in the pivot's row or the row above it |
| Pieces.RotateLeft | src/main.rs:163-169 | the loop rewrites each offset `(x, y)` to `(y, -x)` and keeps the colour: the result is `RotatedLeft` |
| Pieces.RotateRight | src/main.rs:170-176 | the loop rewrites each offset `(x, y)` to `(-y, x)` and keeps the colour: the result is `RotatedRight` |
| Pieces.RotationsAreInverse | src/main.rs:163-176 | a right turn undoes a left turn, and a left turn undoes a right turn |
| Pieces.FourLeftTurnsAreIdentity | src/main.rs:163-169 | four left turns give back the original piece |
| Pieces.RotationKeepsWellFormed | src/main.rs:163-176 | rotation keeps the colour, keeps the four offsets distinct and keeps them within two cells |
| Pieces.Points | src/main.rs:177-179 | there are four absolute cells, and cell `i` minus the origin gives back offset `i`, in offset order |
| Pieces.PointsDistinct | src/main.rs:177-179 | distinct offsets give four distinct absolute cells at any origin, so also after any rotation |
| Pieces.PointsTranslate | src/main.rs:177-179 | moving the origin by `(dx, dy)` moves each of the four cells by exactly `(dx, dy)` |
| Pieces.Spawn | src/main.rs:200-204 | a new moving piece has its pivot at column 5 (`Width / 2`), two rows above the board |
| SortedSets.Insert | src/main.rs:294-297 | inserting into the ordered row set keeps it strictly ascending, adds exactly the new row, and grows it only if the row was absent |
| Grids.EmptyBoard | src/main.rs:80-84 | the new board has 20 rows of 10 cells |
| Grids.Grid.constructor | src/main.rs:80-84 | a new grid has every cell empty (255) |
| Grids.FreeOrAbove | src/main.rs:119-125 | the lookup chain is true iff the cell is on the board and not locked, or it is above the board (`y < 0`) within columns `0..10`; false below the board, beside it, or on a locked cell |
| Grids.SetCell | src/main.rs:126-135 | the write succeeds iff the position is on the board; then that cell holds `c` and every other cell is unchanged; otherwise the board is unchanged |
| Grids.Grid.Set | src/main.rs:126-135 | the two bounds-checked lookups write the array exactly as `SetCell` says and report whether the cell existed |
| Grids.CheckLine | src/main.rs:109-118 | the result is true iff every cell of row `y` is locked; then row `y` is removed with an empty row on top, otherwise the board is unchanged |
| Grids.CollapsedRows | src/main.rs:112-115 | after a collapse, rows `1..=y` hold the old row above them, row 0 is empty and rows below `y` are unchanged |
| Grids.Grid.CheckForLine | src/main.rs:109-118 | the descending copy loop and the reset of row 0 leave the array exactly as `CheckLine` says |
| Locking.WriteAll | src/main.rs:296-302 | writing the cells in order succeeds iff every cell is on the board, and the board keeps its shape |
| Locking.WriteAllStops | src/main.rs:298-301 | after the first failed write, no later cell is written |
| Locking.WriteAllWrites | src/main.rs:296-302 | when every cell is on the board, each of them holds the colour and every other cell is unchanged |
| Locking.WriteAllFailsAt | src/main.rs:296-305 | when cell `j` is the first one off the board, the lock fails and the board keeps exactly the writes of the cells before `j` |
| Locking.RowSet | src/main.rs:294-297 | the ordered set of touched rows is strictly ascending and has at most one row per cell |
| Locking.RowSetHoldsRows | src/main.rs:294-297 | a row is in the set iff some cell of the piece lies in it |
| Locking.ClearAll | src/main.rs:307-312 | checking the first `n` rows of the set in order keeps the board's shape and clears at most one row per row checked |
| Locking.ClearAllRemovesFullRows | src/main.rs:307-312 | checking any prefix of strictly ascending rows removes exactly the full rows among them, keeps the other rows in order, and puts one empty row on top per row cleared |
| Locking.ClearAllNoFullRows | src/main.rs:308-312 | when none of the checked rows is full, the board is unchanged and nothing is counted |
| Locking.LineScore | src/main.rs:313-321 | the score table gives nothing exactly when no row is cleared |
| Locking.LineScoreIncreases | src/main.rs:313-320 | clearing more rows at once scores strictly more (0, 40, 100, 300, 1200) |
| Locking.Settle | src/main.rs:293-322 | a lock settles iff all four cells are on the board, and then at most 4 rows are cleared, so the `unimplemented!()` arm cannot be reached |
| Locking.SettleRemovesFullRows | src/main.rs:293-322 | after a settled lock, the board is the written board with its full touched rows removed and empty rows on top |
| Locking.LockOnEmptyBoard | src/main.rs:296-312 | a lock on an empty board clears nothing, and afterwards exactly the piece's cells hold its colour |
| Locking.SpawnedPieceTopsOut | src/main.rs:296-305 | a piece locked where it spawned fails at its first cell and leaves the board untouched |
| Game.CommandFor | src/main.rs:366-373 | a key has no command iff it is unbound; S and Down soft-drop, A and Left move left, D and Right move right, Q and only Q turns left, E and only E turns right |
| Game.Moved | src/main.rs:246-252 | a shift moves every cell of the candidate one column left or right and keeps the piece; a rotation keeps the pivot and turns every cell a quarter turn about it, `(dx, dy)` to `(dy, -dx)` for Q and to `(-dy, dx)` for E; the colour never changes |
| Game.Descended | src/main.rs:283 | the descent candidate keeps the piece and moves every cell exactly one row down |
| Game.AfterMove | src/main.rs:244-260 | without a falling piece there is still none; otherwise the piece after a move is either unchanged or the candidate |
| Game.CandidatesFitI8 | src/main.rs:244-253 | from a piece in play, every shifted, rotated or lowered candidate and all of its cells have `i8` coordinates |
| Game.UnobstructedInPlay | src/main.rs:253-258 | a piece whose cells are all free, and which is not above the spawn row, is in play |
| Game.AfterMoveChangesIffFree | src/main.rs:244-260 | a move or rotation changes the piece iff every cell of the candidate is free or above the board, and then the piece becomes the candidate |
| Game.LeftWallBlocks | src/main.rs:248-256 | moving left with a cell in column 0 leaves the piece unchanged |
| Game.RightWallBlocks | src/main.rs:249-256 | moving right with a cell in column 9 leaves the piece unchanged |
| Game.Advance | src/main.rs:270-278 | the timer gains 1, and 18 is taken off exactly when the new value exceeds 18, which is when a descent is asked for; a timer within the period stays within it |
| Game.GameState.constructor | src/main.rs:229-243 | a new game has an empty board, no falling piece, no game over, a timer and score of 0, and the next piece drawn |
| Game.GameState.Mv | src/main.rs:244-260 | without a falling piece nothing changes; otherwise the piece becomes the candidate iff all of the candidate's cells are free or above the board; no other field changes |
| Game.GameState.MoveDown | src/main.rs:262-264 | soft drop adds 9 to the timer, whether or not a piece is falling, and changes nothing else |
| Game.GameState.WriteCells | src/main.rs:294-302 | the write loop leaves the grid as `WriteAll` says, and on success its row set is `RowSet` of the cells |
| Game.GameState.ClearRows | src/main.rs:307-312 | the clearing loop leaves the grid and the count as `ClearAll` says |
| Game.GameState.LockPiece | src/main.rs:293-322 | a failed lock sets game over and keeps the piece, the score and the partial writes; otherwise the piece is dropped and the score grows by the table entry for the rows cleared |
| Game.GameState.Tick | src/main.rs:269-330 | the timer always advances; after game over nothing else changes; with no piece the next piece spawns at (5, -2) and shape `draw` becomes next; a descent moves the piece down exactly one row iff all the lowered cells are free, and otherwise locks it; the score never decreases and game over is never undone |
| Game.GameState.KeyDown | src/main.rs:355-376 | without a key code or after game over nothing changes; A/Left and D/Right move, Q and E rotate, S/Down soft-drop, and other keys do nothing |

## Left out

- Drawing (`Grid::draw`, `Piece::draw`, `MovingPiece::draw`, `GameState::draw`), the pixel rectangle of a position, the screen size and the colour palette are rendering only. Only `NUM_COLOURS`, the locked threshold, is kept.
- The random generator is left out: its seeding from `getrandom` and `Rand32`'s uniform draw are foreign calls. Each draw is the `draw` argument of the constructor and of `Tick`, so uniformity is not modelled.
- The frame-rate accumulator `check_update_time` reads the wall clock. One pass of its `while` loop is one call of `Tick`.
- Shift+Escape's `request_quit`, the window title with the score and `main` are platform side effects. `KeyDown` treats Escape like any other unbound key.
- Game.GameState.MoveDown: requires the timer plus 9 to fit in `u8`. The source adds without a check, which panics in a debug build and wraps in a release build. A tick takes at most 17 off the timer, so about 27 soft drops between two ticks, or two or more soft drops per tick kept up over many ticks, reach that bound.
- Game.GameState.KeyDown: carries the same requirement as `MoveDown` when the key is S or Down, for the same reason.
- Game.GameState.Tick: requires the timer to be below 255, the exact condition for its `+= 1` not to overflow. The score is an unbounded `nat`, so the `u32` overflow after billions of points is not modelled.
- Grids.Grid.CheckForLine: requires `0 <= y < 20`, since the source indexes the row directly and would panic otherwise. Its only caller passes rows of cells that were just written on the board.
- `Piece::points` returns a lazy iterator. It is modelled as the sequence of its four items.
