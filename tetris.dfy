/** The game: the falling piece and the game state that owns the board.
    The random choice of the next kind is a parameter of the operations that
    spawn a piece. */
module Tetris {
  import opened Shapes
  import opened Board

  /** Spawn column of the anchor: two columns left of the middle, column 3. */
  const SPAWN_X := BOARD_WIDTH / 2 - 2

  /** The rotation state after an optional clockwise turn. */
  function Turn(r: Rotation, rotate: bool): Rotation {
    if rotate then (r + 1) % 4 else r
  }

  /** The cells a freshly spawned piece of kind `k` covers. */
  function SpawnCells(k: Kind): (cells: seq<Cell>)
    ensures |cells| == 4 && AllInWalls(cells)
  {
    CellsAtGeometry(k, 0, SPAWN_X, 0);
    CellsAt(k, 0, SPAWN_X, 0)
  }

  /** On the empty board every kind fits at the spawn position. */
  lemma SpawnFitsEmptyBoard(k: Kind)
    ensures Valid(EmptyBoard(), SpawnCells(k))
  {
  }

  /** Locking a freshly spawned piece on the empty board clears no row:
      column 0 stays empty in every row, since a spawned piece covers only
      columns 3 to 6. */
  lemma SpawnLockClearsNothing(k: Kind)
    ensures FullRows(Lock(EmptyBoard(), SpawnCells(k))) == 0
  {
    var cells := SpawnCells(k);
    var g := Lock(EmptyBoard(), cells);
    CellsAtGeometry(k, 0, SPAWN_X, 0);
    forall y | 0 <= y < BOARD_HEIGHT ensures !Full(g[y]) {
      LockOccupancy(EmptyBoard(), cells, 0, y);
      assert !g[y][0];
    }
    NoFullRows(g);
  }

  /** A bottom row full except for column 4, completed by a vertical I piece
      (rotation state 1 anchored at (2, 16)) that lands in that gap: exactly
      one row is cleared. */
  lemma CompletingTheBottomRowClearsOne()
    ensures var g := EmptyBoard()[BOARD_HEIGHT - 1 := seq(BOARD_WIDTH, x => x != 4)];
            WellFormed(g) && AllInWalls(CellsAt(I, 1, 2, 16))
            && FullRows(Lock(g, CellsAt(I, 1, 2, 16))) == 1
  {
    var g := EmptyBoard()[BOARD_HEIGHT - 1 := seq(BOARD_WIDTH, x => x != 4)];
    var cells := CellsAt(I, 1, 2, 16);
    CellsAtGeometry(I, 1, 2, 16);
    assert cells == [Cell(4, 16), Cell(4, 17), Cell(4, 18), Cell(4, 19)];
    var locked := Lock(g, cells);
    var bottom := locked[BOARD_HEIGHT - 1];
    forall x | 0 <= x < |bottom| ensures bottom[x] {
      LockOccupancy(g, cells, x, BOARD_HEIGHT - 1);
      if x == 4 { assert cells[3] == Cell(x, BOARD_HEIGHT - 1); }
    }
    forall y | 0 <= y < BOARD_HEIGHT - 1 ensures !Full(locked[y]) {
      LockOccupancy(g, cells, 0, y);
      assert !locked[y][0];
    }
    OneFullRow(locked, BOARD_HEIGHT - 1);
  }

  /** The falling piece. Its kind never changes; a move or rotation updates
      the rotation state and the anchor. */
  class Piece {
    const kind: Kind
    var rotation: Rotation
    var x: int
    var y: int

    /** A new piece at the spawn position, in rotation state 0. */
    constructor (kind: Kind)
      ensures this.kind == kind && rotation == 0 && x == SPAWN_X && y == 0
      ensures Cells() == SpawnCells(kind)
    {
      this.kind := kind;
      rotation := 0;
      x := SPAWN_X;
      y := 0;
    }

    /** The absolute cells of the piece in its current state. */
    function Cells(): seq<Cell>
      reads this
    {
      CellsAt(kind, rotation, x, y)
    }
  }

  class Game {
    var board: Grid
    var piece: Piece
    var score: nat
    var gameOver: bool

    /** The board is 20 by 10 and the falling piece lies inside the walls and
        above the floor (it may stick out above the top). */
    ghost predicate Consistent()
      reads this, piece
    {
      WellFormed(board) && AllInWalls(piece.Cells())
    }

    /** A new game: empty board, a piece of kind `first` at the spawn
        position, score 0, not over. */
    constructor (first: Kind)
      ensures Consistent()
      ensures board == EmptyBoard() && score == 0 && !gameOver
      ensures fresh(piece) && piece.kind == first && piece.Cells() == SpawnCells(first)
      ensures piece.rotation == 0 && piece.x == SPAWN_X && piece.y == 0
      ensures Valid(board, piece.Cells())
    {
      board := EmptyRows(BOARD_HEIGHT);
      piece := new Piece(first);
      score := 0;
      gameOver := false;
      SpawnFitsEmptyBoard(first);
    }

    /** Moves the piece by (dx, dy), turning it first if `rotate`. The move
        happens only if the resulting cells pass the placement check;
        otherwise nothing changes. The board, the score and the game-over
        flag are never touched. */
    method Move(dx: int, dy: int, rotate: bool) returns (ok: bool)
      requires Consistent()
      modifies piece
      ensures Consistent()
      ensures unchanged(this)
      ensures ok <==> Valid(board, CellsAt(piece.kind, Turn(old(piece.rotation), rotate),
                                           old(piece.x) + dx, old(piece.y) + dy))
      ensures ok ==> && piece.rotation == Turn(old(piece.rotation), rotate)
                     && piece.x == old(piece.x) + dx && piece.y == old(piece.y) + dy
                     && Valid(board, piece.Cells())
      ensures !ok ==> unchanged(piece)
    {
      var newRotation := Turn(piece.rotation, rotate);
      var cells := CellsAt(piece.kind, newRotation, piece.x + dx, piece.y + dy);
      ok := Valid(board, cells);
      if ok {
        assert AllInWalls(cells);
        piece.rotation, piece.x, piece.y := newRotation, piece.x + dx, piece.y + dy;
        assert piece.Cells() == cells;
      }
    }

    /** Removes every full row, keeps the others in order at the bottom, fills
        the top with empty rows and adds the number of removed rows to the
        score. */
    method ClearLines()
      requires Consistent()
      modifies this
      ensures Consistent()
      ensures board == Cleared(old(board))
      ensures score == old(score) + FullRows(old(board))
      ensures piece == old(piece) && gameOver == old(gameOver)
    {
      var rows := Survivors(board);
      ClearedCount(board);
      var cleared := BOARD_HEIGHT - |rows|;
      score := score + cleared;
      while |rows| < BOARD_HEIGHT
        invariant |rows| <= BOARD_HEIGHT
        invariant PadTop(rows) == Cleared(old(board))
      {
        rows := [EmptyRow()] + rows;
      }
      board := rows;
    }

    /** Locks the piece into the board, clears full rows, spawns a piece of
        kind `next` and ends the game if that piece does not fit. The flag is
        only ever set, never reset. */
    method FreezePiece(next: Kind)
      requires Consistent()
      modifies this
      ensures Consistent()
      ensures board == Cleared(Lock(old(board), old(piece.Cells())))
      ensures score == old(score) + FullRows(Lock(old(board), old(piece.Cells())))
      ensures fresh(piece) && piece.kind == next && piece.rotation == 0
      ensures piece.x == SPAWN_X && piece.y == 0 && piece.Cells() == SpawnCells(next)
      ensures gameOver <==> old(gameOver) || !Valid(board, SpawnCells(next))
    {
      var cells := piece.Cells();
      ghost var board0 := board;
      for i := 0 to |cells|
        invariant piece == old(piece) && score == old(score) && gameOver == old(gameOver)
        invariant board == LockFirst(old(board), cells, i)
      {
        var c := cells[i];
        if c.y >= 0 {
          board := board[c.y := board[c.y][c.x := true]];
        }
      }
      assert board == Lock(board0, cells);
      ghost var locked := board;
      ClearLines();
      assert board == Cleared(locked);
      piece := new Piece(next);
      if !Valid(board, piece.Cells()) {
        gameOver := true;
      }
    }

    /** The piece can fall one row: the cells one row lower pass the check. */
    ghost predicate CanFall()
      reads this, piece
      requires Consistent()
    {
      Valid(board, CellsAt(piece.kind, piece.rotation, piece.x, piece.y + 1))
    }

    /** One gravity tick: the piece falls one row if it can; otherwise it is
        frozen and a piece of kind `next` is spawned. */
    method Step(next: Kind)
      requires Consistent()
      modifies this, piece
      ensures Consistent()
      ensures score >= old(score)
      ensures old(CanFall()) ==>
        && piece == old(piece) && piece.y == old(piece.y) + 1
        && piece.rotation == old(piece.rotation) && piece.x == old(piece.x)
        && board == old(board) && score == old(score) && gameOver == old(gameOver)
      ensures !old(CanFall()) ==>
        && board == Cleared(Lock(old(board), old(piece.Cells())))
        && score == old(score) + FullRows(Lock(old(board), old(piece.Cells())))
        && fresh(piece) && piece.kind == next && piece.Cells() == SpawnCells(next)
        && piece.rotation == 0 && piece.x == SPAWN_X && piece.y == 0
        && (gameOver <==> old(gameOver) || !Valid(board, SpawnCells(next)))
    {
      ghost var board0, cells0 := board, piece.Cells();
      var fell := Move(0, 1, false);
      assert fell == old(CanFall());
      if !fell {
        assert board == board0 && piece.Cells() == cells0;
        FreezePiece(next);
      }
    }
  }
}
