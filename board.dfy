/** The occupancy grid as a value: placement checks, locking cells in, and
    clearing full rows. The game keeps one such grid and reassigns it. */
module Board {
  import opened Shapes

  const BOARD_WIDTH := 10
  const BOARD_HEIGHT := 20

  /** One row of occupancy flags, left to right. */
  type Row = seq<bool>

  /** Rows from top (index 0) to bottom. */
  type Grid = seq<Row>

  /** The fixed board dimensions: 20 rows of 10 flags. */
  predicate WellFormed(g: Grid) {
    |g| == BOARD_HEIGHT && forall y :: 0 <= y < |g| ==> |g[y]| == BOARD_WIDTH
  }

  /** A row of BOARD_WIDTH free squares. */
  function EmptyRow(): (row: Row)
    ensures |row| == BOARD_WIDTH
    ensures forall x :: 0 <= x < |row| ==> !row[x]
  {
    seq(BOARD_WIDTH, _ => false)
  }

  /** `n` empty rows. */
  function EmptyRows(n: nat): (rows: Grid)
    ensures |rows| == n && forall y :: 0 <= y < n ==> rows[y] == EmptyRow()
  {
    if n == 0 then [] else [EmptyRow()] + EmptyRows(n - 1)
  }

  /** The board of a new game. */
  function EmptyBoard(): (g: Grid)
    ensures WellFormed(g)
    ensures forall y, x :: 0 <= y < BOARD_HEIGHT && 0 <= x < BOARD_WIDTH ==> !g[y][x]
  {
    EmptyRows(BOARD_HEIGHT)
  }

  /** Inside the left and right walls and above the floor; any height above
      the top of the board is allowed. */
  predicate InWalls(c: Cell) {
    0 <= c.x < BOARD_WIDTH && c.y < BOARD_HEIGHT
  }

  predicate AllInWalls(cells: seq<Cell>) {
    forall i :: 0 <= i < |cells| ==> InWalls(cells[i])
  }

  /** A single cell may be placed: inside the walls and, when on the visible
      board, on a free square. Cells above the board are never occupied. */
  predicate Admits(g: Grid, c: Cell)
    requires WellFormed(g)
  {
    InWalls(c) && (c.y >= 0 ==> !g[c.y][c.x])
  }

  /** The placement check, scanning the cells in order and stopping at the
      first one that hits a wall, the floor or an occupied square. */
  function Valid(g: Grid, cells: seq<Cell>): (ok: bool)
    requires WellFormed(g)
    ensures ok <==> forall i :: 0 <= i < |cells| ==> Admits(g, cells[i])
  {
    if cells == [] then true
    else
      var c := cells[0];
      if c.x < 0 || c.x >= BOARD_WIDTH || c.y >= BOARD_HEIGHT then false
      else if c.y >= 0 && g[c.y][c.x] then false
      else Valid(g, cells[1..])
  }

  /** Marks one cell occupied; a cell above the board is dropped. */
  function Place(g: Grid, c: Cell): (r: Grid)
    requires WellFormed(g) && InWalls(c)
    ensures WellFormed(r)
  {
    if c.y >= 0 then g[c.y := g[c.y][c.x := true]] else g
  }

  /** Placing one cell occupies exactly that square, when it lies on the
      board, and leaves every other square as it was. */
  lemma PlaceOccupancy(g: Grid, c: Cell, x: int, y: int)
    requires WellFormed(g) && InWalls(c)
    requires 0 <= x < BOARD_WIDTH && 0 <= y < BOARD_HEIGHT
    ensures Place(g, c)[y][x] <==> g[y][x] || c == Cell(x, y)
  {
  }

  /** The grid after marking the first `n` cells one after another. */
  function LockFirst(g: Grid, cells: seq<Cell>, n: nat): (r: Grid)
    requires WellFormed(g) && AllInWalls(cells) && n <= |cells|
    ensures WellFormed(r)
  {
    if n == 0 then g else Place(LockFirst(g, cells, n - 1), cells[n - 1])
  }

  /** The grid after marking every cell of the list. */
  function Lock(g: Grid, cells: seq<Cell>): (r: Grid)
    requires WellFormed(g) && AllInWalls(cells)
    ensures WellFormed(r)
  {
    LockFirst(g, cells, |cells|)
  }

  lemma {:induction false} LockFirstOccupancy(g: Grid, cells: seq<Cell>, n: nat, x: int, y: int)
    requires WellFormed(g) && AllInWalls(cells) && n <= |cells|
    requires 0 <= x < BOARD_WIDTH && 0 <= y < BOARD_HEIGHT
    ensures LockFirst(g, cells, n)[y][x] <==> g[y][x] || Cell(x, y) in cells[..n]
  {
    if n > 0 {
      LockFirstOccupancy(g, cells, n - 1, x, y);
      assert cells[..n] == cells[..n - 1] + [cells[n - 1]];
    }
  }

  /** A square is occupied after locking iff it was occupied before or it is
      one of the locked cells. Nothing is ever freed. */
  lemma LockOccupancy(g: Grid, cells: seq<Cell>, x: int, y: int)
    requires WellFormed(g) && AllInWalls(cells)
    requires 0 <= x < BOARD_WIDTH && 0 <= y < BOARD_HEIGHT
    ensures Lock(g, cells)[y][x] <==> g[y][x] || Cell(x, y) in cells
  {
    LockFirstOccupancy(g, cells, |cells|, x, y);
    assert cells[..|cells|] == cells;
  }

  /** Locking a piece's cells that all lie inside the visible board makes
      those very cells fail the placement check. */
  lemma LockedCellsBlock(g: Grid, cells: seq<Cell>)
    requires WellFormed(g) && AllInWalls(cells) && |cells| > 0
    requires forall i :: 0 <= i < |cells| ==> cells[i].y >= 0
    ensures !Valid(Lock(g, cells), cells)
  {
  }

  /** Every square of the row is occupied. */
  predicate Full(row: Row) {
    forall x :: 0 <= x < |row| ==> row[x]
  }

  /** The number of full rows. */
  function FullRows(g: Grid): (n: nat)
    ensures n <= |g|
  {
    if g == [] then 0 else (if Full(g[0]) then 1 else 0) + FullRows(g[1..])
  }

  /** The rows that are not full, in their original order. */
  function Survivors(g: Grid): (s: Grid)
    ensures |s| <= |g|
  {
    if g == [] then [] else (if Full(g[0]) then [] else [g[0]]) + Survivors(g[1..])
  }

  /** Rows padded on top with empty rows, one at a time, up to the board
      height. */
  function PadTop(rows: Grid): (r: Grid)
    requires |rows| <= BOARD_HEIGHT
    ensures |r| == BOARD_HEIGHT
    decreases BOARD_HEIGHT - |rows|
  {
    if |rows| < BOARD_HEIGHT then PadTop([EmptyRow()] + rows) else rows
  }

  /** The grid after a clear: the surviving rows, padded on top. */
  function Cleared(g: Grid): (r: Grid)
    requires |g| <= BOARD_HEIGHT
    ensures |r| == BOARD_HEIGHT
  {
    PadTop(Survivors(g))
  }

  /** Padding puts exactly the missing number of empty rows above the rows. */
  lemma {:induction false} PadTopRows(rows: Grid)
    requires |rows| <= BOARD_HEIGHT
    ensures PadTop(rows) == EmptyRows(BOARD_HEIGHT - |rows|) + rows
    decreases BOARD_HEIGHT - |rows|
  {
    if |rows| < BOARD_HEIGHT {
      PadTopRows([EmptyRow()] + rows);
      var n := BOARD_HEIGHT - |rows|;
      assert EmptyRows(n) == [EmptyRow()] + EmptyRows(n - 1);
      assert EmptyRows(n - 1) + ([EmptyRow()] + rows) == EmptyRows(n) + rows;
    }
  }

  lemma {:induction false} FullRowsAppend(a: Grid, b: Grid)
    ensures FullRows(a + b) == FullRows(a) + FullRows(b)
  {
    if a != [] {
      FullRowsAppend(a[1..], b);
      assert (a + b)[1..] == a[1..] + b;
    } else {
      assert a + b == b;
    }
  }

  /** Filtering keeps order: the survivors of two stacked grids are the
      survivors of the upper one stacked on those of the lower one. */
  lemma {:induction false} SurvivorsAppend(a: Grid, b: Grid)
    ensures Survivors(a + b) == Survivors(a) + Survivors(b)
  {
    if a != [] {
      SurvivorsAppend(a[1..], b);
      assert (a + b)[1..] == a[1..] + b;
    } else {
      assert a + b == b;
    }
  }

  /** Exactly the full rows are removed, and none of the survivors is full. */
  lemma {:induction false} SurvivorsCount(g: Grid)
    ensures |Survivors(g)| == |g| - FullRows(g)
    ensures forall i :: 0 <= i < |Survivors(g)| ==> !Full(Survivors(g)[i])
  {
    if g != [] {
      SurvivorsCount(g[1..]);
    }
  }

  /** A row survives iff it occurs in the grid and is not full. */
  lemma {:induction false} SurvivorsMembers(g: Grid, row: Row)
    ensures row in Survivors(g) <==> row in g && !Full(row)
  {
    if g != [] {
      SurvivorsMembers(g[1..], row);
      assert g == [g[0]] + g[1..];
    }
  }

  /** Where each surviving row ends up: the non-full row `j` is preceded in
      the survivors by exactly the non-full rows above it. */
  lemma {:induction false} SurvivorPosition(g: Grid, j: int)
    requires 0 <= j < |g| && !Full(g[j])
    ensures FullRows(g[..j]) <= j
    ensures j - FullRows(g[..j]) < |Survivors(g)|
    ensures Survivors(g)[j - FullRows(g[..j])] == g[j]
  {
    if j == 0 {
      assert g[..0] == [];
    } else {
      SurvivorPosition(g[1..], j - 1);
      assert g[..j] == [g[0]] + g[1..][..j - 1];
      assert g[..j][1..] == g[1..][..j - 1];
    }
  }

  /** A grid with no full row is its own survivor list. */
  lemma {:induction false} SurvivorsOfNoFull(g: Grid)
    requires forall i :: 0 <= i < |g| ==> !Full(g[i])
    ensures Survivors(g) == g
  {
    if g != [] {
      SurvivorsOfNoFull(g[1..]);
    }
  }

  lemma {:induction false} EmptyRowsNotFull(n: nat)
    ensures FullRows(EmptyRows(n)) == 0 && Survivors(EmptyRows(n)) == EmptyRows(n)
  {
    assert !EmptyRow()[0];
    if n > 0 {
      EmptyRowsNotFull(n - 1);
    }
  }

  /** A clear keeps the board at 20 rows of 10: exactly the full rows are
      removed, and as many empty rows are put on top. */
  lemma ClearedCount(g: Grid)
    requires WellFormed(g)
    ensures |Survivors(g)| == BOARD_HEIGHT - FullRows(g)
    ensures Cleared(g) == EmptyRows(FullRows(g)) + Survivors(g)
    ensures WellFormed(Cleared(g))
  {
    SurvivorsCount(g);
    var s := Survivors(g);
    forall y | 0 <= y < |s| ensures |s[y]| == BOARD_WIDTH {
      SurvivorsMembers(g, s[y]);
    }
    PadTopRows(s);
  }

  /** After a clear the top `FullRows(g)` rows are empty, the rest are the
      non-full rows of `g` in order, and no row is full. */
  lemma ClearedShape(g: Grid)
    requires WellFormed(g)
    ensures forall y :: 0 <= y < FullRows(g) ==> Cleared(g)[y] == EmptyRow()
    ensures Cleared(g)[FullRows(g)..] == Survivors(g)
    ensures FullRows(Cleared(g)) == 0
  {
    ClearedCount(g);
    var k := FullRows(g);
    var s := Survivors(g);
    assert Cleared(g)[k..] == s;
    EmptyRowsNotFull(k);
    SurvivorsCount(s);
    SurvivorsCount(g);
    SurvivorsOfNoFull(s);
    FullRowsAppend(EmptyRows(k), s);
  }

  /** Gravity: a row that is not full moves down by exactly the number of
      full rows below it, so the surviving rows keep their relative order. */
  lemma RowDrop(g: Grid, j: int)
    requires WellFormed(g) && 0 <= j < |g| && !Full(g[j])
    ensures j + FullRows(g[j + 1..]) < BOARD_HEIGHT
    ensures Cleared(g)[j + FullRows(g[j + 1..])] == g[j]
  {
    SurvivorPosition(g, j);
    ClearedCount(g);
    var k, p := FullRows(g), j - FullRows(g[..j]);
    assert g == g[..j] + g[j..];
    FullRowsAppend(g[..j], g[j..]);
    assert g[j..][0] == g[j] && g[j..][1..] == g[j + 1..];
    assert j + FullRows(g[j + 1..]) == k + p;
    assert (EmptyRows(k) + Survivors(g))[k + p] == Survivors(g)[p];
  }

  /** No full row is counted iff no row is full. */
  lemma {:induction false} NoFullRows(g: Grid)
    ensures FullRows(g) == 0 <==> forall i :: 0 <= i < |g| ==> !Full(g[i])
  {
    if g != [] {
      NoFullRows(g[1..]);
      assert forall i :: 1 <= i < |g| ==> g[i] == g[1..][i - 1];
    }
  }

  /** A grid whose only full row is row `j` counts one full row. */
  lemma {:induction false} OneFullRow(g: Grid, j: int)
    requires 0 <= j < |g| && Full(g[j])
    requires forall i :: 0 <= i < |g| && i != j ==> !Full(g[i])
    ensures FullRows(g) == 1
  {
    if j == 0 {
      assert forall i :: 0 <= i < |g| - 1 ==> g[1..][i] == g[i + 1];
      NoFullRows(g[1..]);
    } else {
      assert forall i :: 0 <= i < |g| - 1 ==> g[1..][i] == g[i + 1];
      OneFullRow(g[1..], j - 1);
    }
  }

  /** Clearing is idempotent: a cleared board has nothing left to clear. */
  lemma ClearedIdempotent(g: Grid)
    requires WellFormed(g)
    ensures Cleared(Cleared(g)) == Cleared(g)
  {
    ClearedCount(g);
    ClearedShape(g);
    var c := Cleared(g);
    NoFullRows(c);
    SurvivorsOfNoFull(c);
  }
}
