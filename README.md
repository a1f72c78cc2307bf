# Terminal Tetris engine in Dafny

This project models the game engine of a small terminal Tetris (`tetris.py`)
and proves properties of it. The engine has a 20-row by 10-column board of
occupied and free squares. A falling piece is one of seven tetromino kinds in
one of four rotation states, anchored at an (x, y) position. The score counts
cleared lines, and a flag marks the end of the game.

The model has three modules:

- `Shapes` (`shapes.dfy`): the `SHAPES` table, copied entry for entry, as a
  function from kind and rotation to four offsets. It also holds the
  translation of offsets by the anchor, which is `Piece.cells`. This part of
  the source is pure, so it is modelled with datatypes, functions and lemmas.
- `Board` (`board.dfy`): the board as a sequence of rows of `bool`. It holds
  the placement check `valid`, and two value-level reference definitions: the
  locking of a piece into the board, and line clearing (drop the full rows,
  pad the top with empty rows).
- `Tetris` (`tetris.dfy`): the mutable objects.
  - `Piece` is a class whose rotation and anchor `move` updates in place.
  - `Game` is a class owning the board, the piece, the score and the
    game-over flag.
  - `Game.FreezePiece` and `Game.ClearLines` keep the source's loops. Each is
    proved against the reference functions of `Board`.

Some source expressions are small helpers without contracts of their own:

- `Board.Full` is the `all(row)` test of `clear_lines` (every square of the row is occupied).
- `Tetris.Turn` is the new rotation state that `move` computes: the next state modulo 4 when turning, otherwise the same state.
- `Tetris.Piece.Cells` is `cells()` called without arguments: the cells at the piece's own rotation and anchor.

The class invariant `Game.Consistent` says:

- the board is 20 by 10;
- every cell of the falling piece is inside the side walls and above the
  floor, and it may stick out above the top.

Every operation preserves it. Under this invariant the writes and reads that
`freeze_piece` and `valid` make on the board are always in range.

## Model

| member | source | states |
|---|---|---|
| Shapes.Rotations | tetris.py:11-54 | each of the seven kinds has exactly four rotation states, given literally as in the table |
| Shapes.TableWellFormed | tetris.py:11-54 | every table entry is four pairwise distinct offsets with both coordinates in 0..3 |
| Shapes.OIsSymmetric | tetris.py:30-35 | the four rotation states of O are identical, so rotating an O piece never changes its cells |
| Shapes.Shape | tetris.py:67 | the table entry `SHAPES[shape][r]` has four offsets; TableWellFormed states their form and Rotations gives their values |
| Shapes.Translate | tetris.py:67 | shifting a list of offsets by the anchor gives one cell per offset; TranslateAt states which |
| Shapes.CellsAt | tetris.py:63-67 | a piece of any kind, rotation and anchor covers exactly four cells; CellsAtGeometry states which |
| Shapes.TranslateAt | tetris.py:67 | translation keeps the list order: entry i of the result is entry i of the offsets shifted by the anchor |
| Shapes.CellsAtGeometry | tetris.py:63-67 | the cells of a piece are its table offsets plus the anchor, in table order, four distinct cells inside the 4x4 box at the anchor |
| Shapes.TranslateInverse | tetris.py:67 | shifting the cells back by the anchor recovers the offsets |
| Shapes.TranslateCompose | tetris.py:67 | two shifts compose into one shift by the sum |
| Shapes.CellsAtShift | tetris.py:104-110 | moving the anchor by (dx, dy) moves every cell of the piece by (dx, dy) |
| Shapes.CellsAtRelative | tetris.py:63-67 | subtracting the anchor from a piece's cells gives exactly its table entry |
| Board.EmptyRow | tetris.py:101 | a padding row has 10 squares, all free |
| Board.EmptyRows | tetris.py:71 | n rows, each of them an empty row |
| Board.EmptyBoard | tetris.py:71 | the fresh board is 20 rows of 10 squares, all free |
| Board.Valid | tetris.py:79-85 | a list of cells is accepted if and only if every cell has 0 <= x < 10 and y < 20 and, when y >= 0, lies on a free square |
| Board.Place | tetris.py:89-90 | writing one cell inside the walls keeps the board 20 by 10 |
| Board.PlaceOccupancy | tetris.py:89-90 | writing one cell occupies exactly that square when it is on the board (a cell above the top is skipped), and every other square keeps its state |
| Board.LockFirst | tetris.py:88-90 | writing the first n cells of a piece inside the walls keeps the board 20 by 10; LockFirstOccupancy states which squares are occupied |
| Board.Lock | tetris.py:88-90 | writing all the cells of a piece inside the walls keeps the board 20 by 10; LockOccupancy states which squares are occupied |
| Board.LockFirstOccupancy | tetris.py:88-90 | after the first n cells are written, a square is occupied if and only if it was occupied before or is one of those n cells (cells with y < 0 are skipped) |
| Board.LockOccupancy | tetris.py:88-90 | after freezing, a square is occupied if and only if it was occupied before or is a cell of the piece |
| Board.LockedCellsBlock | tetris.py:88-90 | a piece lying fully on the board, once locked, no longer passes the placement check at its own position |
| Board.FullRows | tetris.py:97-98 | the number of full rows is at most the number of rows |
| Board.Survivors | tetris.py:97 | the filtered board has at most as many rows as the board |
| Board.PadTop | tetris.py:100-101 | inserting empty rows on top until the height is reached gives exactly 20 rows; PadTopRows states their contents |
| Board.Cleared | tetris.py:96-102 | the cleared board always has 20 rows |
| Board.PadTopRows | tetris.py:100-101 | padding puts exactly 20 - n empty rows above the n kept rows |
| Board.FullRowsAppend | tetris.py:97-98 | the full-row count is additive over stacked parts of a board |
| Board.SurvivorsAppend | tetris.py:97 | filtering distributes over stacked parts of a board, so it keeps order |
| Board.SurvivorsCount | tetris.py:97-98 | the number of kept rows is the number of rows minus the number of full rows, and no kept row is full |
| Board.SurvivorsMembers | tetris.py:97 | a row is kept if and only if it is on the board and is not full |
| Board.SurvivorPosition | tetris.py:97 | a non-full row j ends up at index j minus the number of full rows above it |
| Board.SurvivorsOfNoFull | tetris.py:97 | a board without full rows is kept unchanged by the filter |
| Board.EmptyRowsNotFull | tetris.py:101 | padding rows are never full and survive the filter |
| Board.ClearedCount | tetris.py:96-102 | clearing a 20 by 10 board gives a 20 by 10 board: as many empty rows on top as there were full rows, then the kept rows |
| Board.ClearedShape | tetris.py:96-102 | the top rows of a cleared board are empty, the rest are the kept rows in order, and no row of it is full |
| Board.RowDrop | tetris.py:96-102 | a non-full row j moves down by exactly the number of full rows below it, and its contents are unchanged |
| Board.NoFullRows | tetris.py:97-98 | the full-row count is 0 if and only if no row is full |
| Board.OneFullRow | tetris.py:97-98 | if exactly one row is full, one line is counted |
| Board.ClearedIdempotent | tetris.py:96-102 | clearing an already cleared board changes nothing |
| Tetris.SpawnCells | tetris.py:57-61 | a freshly spawned piece covers four cells inside the walls |
| Tetris.SpawnFitsEmptyBoard | tetris.py:70-74 | every kind fits at the spawn position of the empty board |
| Tetris.SpawnLockClearsNothing | tetris.py:87-99 | locking a freshly spawned piece on the empty board clears no line and scores nothing |
| Tetris.CompletingTheBottomRowClearsOne | tetris.py:87-99 | a vertical I dropped into the one gap of the bottom row completes exactly one line |
| Tetris.Piece.constructor | tetris.py:57-61 | a new piece has the given kind, rotation 0 and anchor (3, 0), and covers the spawn cells |
| Tetris.Game.constructor | tetris.py:70-74 | a new game has an empty board, score 0, is not over, and its first piece has rotation 0 and anchor (3, 0) and fits |
| Tetris.Game.Move | tetris.py:104-112 | the move happens if and only if the turned and shifted cells pass the placement check; on success the new rotation and anchor are set and the piece fits; on failure nothing changes; the board, score and flag are never touched |
| Tetris.Game.ClearLines | tetris.py:96-102 | the board becomes the cleared board and the score grows by the number of full rows; the piece and the flag are unchanged |
| Tetris.Game.FreezePiece | tetris.py:87-95 | the piece's cells with y >= 0 are locked into the board, lines are cleared and scored, a new piece of the given kind spawns at rotation 0 and (3, 0), and the flag is set if and only if it was already set or the new piece does not fit |
| Tetris.Game.Step | tetris.py:114-116 | either the piece falls one row and nothing else changes, or it is frozen exactly as by FreezePiece, including the new piece at rotation 0 and (3, 0); the score never decreases |

## Left out

- `draw`, `run` and `main`: terminal drawing, keyboard input and the timing of the drop are I/O and are not part of this model.
- `new_piece` picks a kind at random. The model takes the kind as a parameter of `Game.constructor`, `Game.FreezePiece` and `Game.Step`, so each property holds for every possible choice.
- The game-over flag does not guard anything. `move`, `step` and `freeze_piece` do not check `game_over`, and the model follows the code: after the game ends, `move` still moves the piece, and `step` and `freeze_piece` still lock, clear and score. `run` tests the flag only at the top of its loop (tetris.py:140), so the timed `step` at tetris.py:152-153 can still run once in the iteration where a down-key `step` ended the game. `game_over` is only ever set, never reset, and `Game.FreezePiece` states that.
- Python's integers are unbounded, and so are Dafny's `int`; no width or wrap-around is modelled. Cells are `(x, y)` pairs of `int`, and the board squares are `bool` instead of the source's `0`/`1`.
- Python's negative list indexing and `IndexError` are never reached under `Game.Consistent`: `valid` only reads squares with `0 <= y < 20` and `0 <= x < 10`, and `freeze_piece` only writes the cells of a piece that satisfies the invariant. Behaviour on a board that breaks the invariant is not modelled.
- `Piece.cells` with explicit arguments (its default-argument form) is the function `Shapes.CellsAt`; `Piece.Cells` is the no-argument call.
- `Game.Move`, `Game.ClearLines`, `Game.FreezePiece` and `Game.Step` are proved for a game that satisfies `Game.Consistent`. A game built by the constructor and changed only through these methods always does.
- Aliasing of the piece object: `Game` owns its piece, and the model does not consider other references to it.
- The other programs in the repository (the motocross game and the learning agents) are not part of this model.
