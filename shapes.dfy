/** The shape geometry table: the seven tetromino kinds, their four rotation
    states, and the translation of a state to absolute board coordinates. */
module Shapes {

  /** The seven tetromino kinds, in the order of the table. */
  datatype Kind = I | J | L | O | S | T | Z

  /** An (x, y) pair: an offset in a shape's local frame or an absolute board
      coordinate (x grows to the right, y grows downwards). */
  datatype Cell = Cell(x: int, y: int)

  /** A rotation state index. */
  type Rotation = r: int | 0 <= r < 4

  predicate Distinct(cells: seq<Cell>) {
    forall i, j :: 0 <= i < j < |cells| ==> cells[i] != cells[j]
  }

  /** A well-formed rotation state: four distinct offsets inside the 4x4 box. */
  predicate IsState(offsets: seq<Cell>) {
    && |offsets| == 4
    && Distinct(offsets)
    && forall i :: 0 <= i < |offsets| ==> 0 <= offsets[i].x <= 3 && 0 <= offsets[i].y <= 3
  }

  /** The four rotation states of a kind, in table order. */
  function Rotations(k: Kind): (states: seq<seq<Cell>>)
    ensures |states| == 4
  {
    match k
    case I => [
      [Cell(0,1), Cell(1,1), Cell(2,1), Cell(3,1)],
      [Cell(2,0), Cell(2,1), Cell(2,2), Cell(2,3)],
      [Cell(0,2), Cell(1,2), Cell(2,2), Cell(3,2)],
      [Cell(1,0), Cell(1,1), Cell(1,2), Cell(1,3)]]
    case J => [
      [Cell(0,0), Cell(0,1), Cell(1,1), Cell(2,1)],
      [Cell(1,0), Cell(2,0), Cell(1,1), Cell(1,2)],
      [Cell(0,1), Cell(1,1), Cell(2,1), Cell(2,2)],
      [Cell(1,0), Cell(1,1), Cell(0,2), Cell(1,2)]]
    case L => [
      [Cell(2,0), Cell(0,1), Cell(1,1), Cell(2,1)],
      [Cell(1,0), Cell(1,1), Cell(1,2), Cell(2,2)],
      [Cell(0,1), Cell(1,1), Cell(2,1), Cell(0,2)],
      [Cell(0,0), Cell(1,0), Cell(1,1), Cell(1,2)]]
    case O => [
      [Cell(1,0), Cell(2,0), Cell(1,1), Cell(2,1)],
      [Cell(1,0), Cell(2,0), Cell(1,1), Cell(2,1)],
      [Cell(1,0), Cell(2,0), Cell(1,1), Cell(2,1)],
      [Cell(1,0), Cell(2,0), Cell(1,1), Cell(2,1)]]
    case S => [
      [Cell(1,1), Cell(2,1), Cell(0,2), Cell(1,2)],
      [Cell(1,0), Cell(1,1), Cell(2,1), Cell(2,2)],
      [Cell(1,1), Cell(2,1), Cell(0,2), Cell(1,2)],
      [Cell(1,0), Cell(1,1), Cell(2,1), Cell(2,2)]]
    case T => [
      [Cell(1,0), Cell(0,1), Cell(1,1), Cell(2,1)],
      [Cell(1,0), Cell(1,1), Cell(2,1), Cell(1,2)],
      [Cell(0,1), Cell(1,1), Cell(2,1), Cell(1,2)],
      [Cell(1,0), Cell(0,1), Cell(1,1), Cell(1,2)]]
    case Z => [
      [Cell(0,1), Cell(1,1), Cell(1,2), Cell(2,2)],
      [Cell(2,0), Cell(1,1), Cell(2,1), Cell(1,2)],
      [Cell(0,1), Cell(1,1), Cell(1,2), Cell(2,2)],
      [Cell(2,0), Cell(1,1), Cell(2,1), Cell(1,2)]]
  }

  /** Four cells inside the 4x4 box, pairwise different, form a rotation state. */
  lemma FourCellsState(a: Cell, b: Cell, c: Cell, d: Cell)
    requires 0 <= a.x <= 3 && 0 <= a.y <= 3 && 0 <= b.x <= 3 && 0 <= b.y <= 3
    requires 0 <= c.x <= 3 && 0 <= c.y <= 3 && 0 <= d.x <= 3 && 0 <= d.y <= 3
    requires a != b && a != c && a != d && b != c && b != d && c != d
    ensures IsState([a, b, c, d])
  {
  }

  /** Every entry of the table is a well-formed rotation state: four
      distinct offsets with both coordinates in 0..3. */
  lemma TableWellFormed(k: Kind, r: Rotation)
    ensures IsState(Shape(k, r))
  {
    var s := Shape(k, r);
    assert s == [s[0], s[1], s[2], s[3]];
    match k
    case I => FourCellsState(s[0], s[1], s[2], s[3]);
    case J => FourCellsState(s[0], s[1], s[2], s[3]);
    case L => FourCellsState(s[0], s[1], s[2], s[3]);
    case O => FourCellsState(s[0], s[1], s[2], s[3]);
    case S => FourCellsState(s[0], s[1], s[2], s[3]);
    case T => FourCellsState(s[0], s[1], s[2], s[3]);
    case Z => FourCellsState(s[0], s[1], s[2], s[3]);
  }

  /** The offsets of rotation state `r` of kind `k`. */
  function Shape(k: Kind, r: Rotation): (offsets: seq<Cell>)
    ensures |offsets| == 4
  {
    Rotations(k)[r]
  }

  /** Every offset shifted by (ox, oy). */
  function Translate(offsets: seq<Cell>, ox: int, oy: int): (cells: seq<Cell>)
    ensures |cells| == |offsets|
  {
    if offsets == [] then []
    else [Cell(offsets[0].x + ox, offsets[0].y + oy)] + Translate(offsets[1..], ox, oy)
  }

  /** Translation keeps the order of the list: entry `i` of the result is
      entry `i` of the input shifted by (ox, oy). */
  lemma {:induction false} TranslateAt(offsets: seq<Cell>, ox: int, oy: int)
    ensures forall i :: 0 <= i < |offsets| ==>
      Translate(offsets, ox, oy)[i] == Cell(offsets[i].x + ox, offsets[i].y + oy)
  {
    if offsets != [] {
      TranslateAt(offsets[1..], ox, oy);
    }
  }

  /** The absolute cells of kind `k` in rotation `r` anchored at (ox, oy). */
  function CellsAt(k: Kind, r: Rotation, ox: int, oy: int): (cells: seq<Cell>)
    ensures |cells| == 4
  {
    Translate(Shape(k, r), ox, oy)
  }

  /** The cells of a piece are the four table offsets shifted by the anchor,
      in table order: four distinct cells inside the 4x4 box whose top-left
      corner is the anchor. */
  lemma CellsAtGeometry(k: Kind, r: Rotation, ox: int, oy: int)
    ensures Distinct(CellsAt(k, r, ox, oy))
    ensures forall i :: 0 <= i < 4 ==>
      && CellsAt(k, r, ox, oy)[i] == Cell(Shape(k, r)[i].x + ox, Shape(k, r)[i].y + oy)
      && ox <= CellsAt(k, r, ox, oy)[i].x <= ox + 3 && oy <= CellsAt(k, r, ox, oy)[i].y <= oy + 3
  {
    TableWellFormed(k, r);
    TranslateAt(Shape(k, r), ox, oy);
  }

  /** Translating back by the opposite offset recovers the original list. */
  lemma {:induction false} TranslateInverse(offsets: seq<Cell>, ox: int, oy: int)
    ensures Translate(Translate(offsets, ox, oy), -ox, -oy) == offsets
  {
    TranslateAt(offsets, ox, oy);
    TranslateAt(Translate(offsets, ox, oy), -ox, -oy);
    if offsets != [] {
      TranslateInverse(offsets[1..], ox, oy);
      assert Translate(offsets, ox, oy)[1..] == Translate(offsets[1..], ox, oy);
    }
  }

  /** Two translations compose into one. */
  lemma {:induction false} TranslateCompose(offsets: seq<Cell>, ox: int, oy: int, dx: int, dy: int)
    ensures Translate(Translate(offsets, ox, oy), dx, dy) == Translate(offsets, ox + dx, oy + dy)
  {
    TranslateAt(offsets, ox, oy);
    TranslateAt(Translate(offsets, ox, oy), dx, dy);
    TranslateAt(offsets, ox + dx, oy + dy);
    if offsets != [] {
      TranslateCompose(offsets[1..], ox, oy, dx, dy);
      assert Translate(offsets, ox, oy)[1..] == Translate(offsets[1..], ox, oy);
    }
  }

  /** Moving the anchor by (dx, dy) moves every cell of the piece by (dx, dy). */
  lemma CellsAtShift(k: Kind, r: Rotation, ox: int, oy: int, dx: int, dy: int)
    ensures CellsAt(k, r, ox + dx, oy + dy) == Translate(CellsAt(k, r, ox, oy), dx, dy)
  {
    TranslateCompose(Shape(k, r), ox, oy, dx, dy);
  }

  /** The cells of a piece are determined by its table offsets: subtracting the
      anchor gives back exactly the table entry. */
  lemma CellsAtRelative(k: Kind, r: Rotation, ox: int, oy: int)
    ensures Translate(CellsAt(k, r, ox, oy), -ox, -oy) == Shape(k, r)
  {
    TranslateInverse(Shape(k, r), ox, oy);
  }

  /** The O kind looks the same in every rotation state, so rotating it never
      changes its cells. */
  lemma OIsSymmetric(r: Rotation, ox: int, oy: int)
    ensures Shape(O, r) == Shape(O, 0)
    ensures CellsAt(O, r, ox, oy) == CellsAt(O, 0, ox, oy)
  {
  }
}
