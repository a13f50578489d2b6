/**
  The playing field shared by every part of the game: a 17 x 15 grid of
  integer cell codes, indexed map[y][x], and the unit steps between cells.
  Positions are whole cells; the renderer's cell centres (x + 0.5, y + 0.5)
  are not needed by the rules (see GhostAI for the one place where a
  distance is measured to a point that is not a centre).
*/
module Grid {

  const Rows: int := 17
  const Cols: int := 15

  // Cell codes of the maze array.
  const EMPTY: int := 0
  const WALL: int := 1
  const DOT: int := 2
  const PELLET: int := 3

  datatype Option<T> = None | Some(value: T)

  datatype Cell = Cell(x: int, y: int)

  /** A movement direction as a unit delta; Dir(0, 0) means "not moving". */
  datatype Dir = Dir(dx: int, dy: int)

  const Still: Dir := Dir(0, 0)

  predicate IsUnit(d: Dir) {
    d == Dir(1, 0) || d == Dir(-1, 0) || d == Dir(0, 1) || d == Dir(0, -1)
  }

  /** Zero or a unit step: every direction the game ever stores. */
  predicate IsHeading(d: Dir) {
    d == Still || IsUnit(d)
  }

  function Step(c: Cell, d: Dir): Cell {
    Cell(c.x + d.dx, c.y + d.dy)
  }

  function Reverse(d: Dir): Dir {
    Dir(-d.dx, -d.dy)
  }

  function Abs(n: int): nat {
    if n < 0 then -n else n
  }

  predicate InBounds(c: Cell) {
    0 <= c.x < Cols && 0 <= c.y < Rows
  }

  predicate IsBorder(c: Cell) {
    InBounds(c) && (c.x == 0 || c.y == 0 || c.x == Cols - 1 || c.y == Rows - 1)
  }

  predicate IsInterior(c: Cell) {
    1 <= c.x < Cols - 1 && 1 <= c.y < Rows - 1
  }

  /** Pac-Man's spawn cell (cols / 2, rows / 2), also the flood-fill origin. */
  const Start: Cell := Cell(Cols / 2, Rows / 2)

  /** A cell of `m` that exists and is not a wall. */
  predicate Open(m: array2<int>, c: Cell)
    reads m
  {
    0 <= c.y < m.Length0 && 0 <= c.x < m.Length1 && m[c.y, c.x] != WALL
  }

  /** The maze has the game's dimensions and a closed wall border. */
  predicate Walled(m: array2<int>)
    reads m
  {
    && m.Length0 == Rows && m.Length1 == Cols
    && forall y, x :: 0 <= y < Rows && 0 <= x < Cols && IsBorder(Cell(x, y)) ==> m[y, x] == WALL
  }

  /** In a walled maze every open cell is an interior cell. */
  lemma OpenIsInterior(m: array2<int>, c: Cell)
    requires Walled(m) && Open(m, c)
    ensures IsInterior(c)
  {
    if !IsInterior(c) {
      assert IsBorder(c);
    }
  }
}
