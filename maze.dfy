/**
  Building a level's maze in place: the border and dots, the level's wall
  template (fixed segments for levels 0 to 2, the stored random wall list
  for level 3) and the four power pellets.
*/
module Maze {
  import opened Grid
  import opened Layout

  /** A straight run of walls: a row from x0 up to x1, or a column from y0 up to y1 (both half-open). */
  datatype Segment = Row(y: int, x0: int, x1: int) | Column(x: int, y0: int, y1: int)

  predicate OnSegment(s: Segment, c: Cell) {
    match s
    case Row(y, x0, x1) => c.y == y && x0 <= c.x < x1
    case Column(x, y0, y1) => c.x == x && y0 <= c.y < y1
  }

  predicate SegmentInBounds(s: Segment) {
    match s
    case Row(y, x0, x1) => 0 <= y < Rows && 0 <= x0 <= x1 <= Cols
    case Column(x, y0, y1) => 0 <= x < Cols && 0 <= y0 <= y1 <= Rows
  }

  /** The fixed wall templates of levels 0, 1 and 2; every other level has none. */
  function Template(level: int): (t: seq<Segment>)
    ensures forall i :: 0 <= i < |t| ==> SegmentInBounds(t[i])
  {
    if level == 0 then [Row(4, 3, 12), Row(12, 3, 12)]
    else if level == 1 then [Column(4, 3, 14), Column(10, 3, 14)]
    else if level == 2 then [Row(4, 2, 6), Row(4, 9, 13), Row(12, 2, 6), Row(12, 9, 13), Column(7, 6, 11)]
    else []
  }

  /** `c` lies on one of the segments. */
  predicate Covered(segs: seq<Segment>, c: Cell) {
    if segs == [] then false
    else Covered(segs[..|segs| - 1], c) || OnSegment(segs[|segs| - 1], c)
  }

  /** A cell the level's template turns into a wall. */
  predicate TemplateWall(level: int, walls: seq<Cell>, c: Cell) {
    if level == 3 then InBounds(c) && c in walls
    else Covered(Template(level), c)
  }

  const PelletCells: seq<Cell> := [Cell(2, 2), Cell(Cols - 3, 2), Cell(2, Rows - 3), Cell(Cols - 3, Rows - 3)]

  /** The cell after the first pass: wall on the border, dot inside. */
  function BaseCell(c: Cell): int {
    if IsBorder(c) then WALL else DOT
  }

  /** The cell after the template has been stamped over the first pass. */
  function StampedCell(level: int, walls: seq<Cell>, c: Cell): int {
    if IsBorder(c) || TemplateWall(level, walls, c) then WALL else DOT
  }

  /** The cell resetMap leaves: the stamped maze with pellets on the non-wall pellet cells. */
  function ResetCell(level: int, walls: seq<Cell>, c: Cell): int {
    if StampedCell(level, walls, c) == WALL then WALL
    else if c in PelletCells then PELLET
    else DOT
  }

  predicate HasGameSize(m: array2<int>) {
    m.Length0 == Rows && m.Length1 == Cols
  }

  /** Every cell of `m` is wall on the border and dot inside. */
  method FillBase(m: array2<int>)
    requires HasGameSize(m)
    modifies m
    ensures forall y, x :: 0 <= y < Rows && 0 <= x < Cols ==> m[y, x] == BaseCell(Cell(x, y))
  {
    for y := 0 to Rows
      invariant forall yy, xx :: 0 <= yy < y && 0 <= xx < Cols ==> m[yy, xx] == BaseCell(Cell(xx, yy))
    {
      for x := 0 to Cols
        invariant forall yy, xx :: 0 <= yy < y && 0 <= xx < Cols ==> m[yy, xx] == BaseCell(Cell(xx, yy))
        invariant forall xx :: 0 <= xx < x ==> m[y, xx] == BaseCell(Cell(xx, y))
      {
        m[y, x] := if x == 0 || y == 0 || x == Cols - 1 || y == Rows - 1 then WALL else DOT;
      }
    }
  }

  /** One `for` loop of a template: the segment's cells become walls, the rest is kept. */
  method StampSegment(m: array2<int>, s: Segment)
    requires HasGameSize(m) && SegmentInBounds(s)
    modifies m
    ensures forall y, x :: 0 <= y < Rows && 0 <= x < Cols ==>
      m[y, x] == if OnSegment(s, Cell(x, y)) then WALL else old(m[y, x])
  {
    match s
    case Row(y, x0, x1) =>
      for x := x0 to x1
        invariant forall yy, xx :: 0 <= yy < Rows && 0 <= xx < Cols ==>
          m[yy, xx] == if yy == y && x0 <= xx < x then WALL else old(m[yy, xx])
      {
        m[y, x] := WALL;
      }
    case Column(x, y0, y1) =>
      for y := y0 to y1
        invariant forall yy, xx :: 0 <= yy < Rows && 0 <= xx < Cols ==>
          m[yy, xx] == if xx == x && y0 <= yy < y then WALL else old(m[yy, xx])
      {
        m[y, x] := WALL;
      }
  }

  /** Stamp the fixed template of `level` (none for levels other than 0, 1 and 2). */
  method StampTemplate(m: array2<int>, level: int)
    requires HasGameSize(m)
    requires forall y, x :: 0 <= y < Rows && 0 <= x < Cols ==> m[y, x] == BaseCell(Cell(x, y))
    modifies m
    ensures forall y, x :: 0 <= y < Rows && 0 <= x < Cols ==>
      m[y, x] == if IsBorder(Cell(x, y)) || Covered(Template(level), Cell(x, y)) then WALL else DOT
  {
    var segs := Template(level);
    for i := 0 to |segs|
      invariant forall y, x :: 0 <= y < Rows && 0 <= x < Cols ==>
        m[y, x] == if IsBorder(Cell(x, y)) || Covered(segs[..i], Cell(x, y)) then WALL else DOT
    {
      StampSegment(m, segs[i]);
      assert segs[..i + 1][..i] == segs[..i];
    }
    assert segs[..|segs|] == segs;
  }

  /** Level 3: every listed wall that lies on the grid becomes a wall. */
  method StampWalls(m: array2<int>, walls: seq<Cell>)
    requires HasGameSize(m)
    requires forall y, x :: 0 <= y < Rows && 0 <= x < Cols ==> m[y, x] == BaseCell(Cell(x, y))
    modifies m
    ensures forall y, x :: 0 <= y < Rows && 0 <= x < Cols ==>
      m[y, x] == if IsBorder(Cell(x, y)) || Cell(x, y) in walls then WALL else DOT
  {
    for i := 0 to |walls|
      invariant forall y, x :: 0 <= y < Rows && 0 <= x < Cols ==>
        m[y, x] == if IsBorder(Cell(x, y)) || Cell(x, y) in walls[..i] then WALL else DOT
    {
      var w := walls[i];
      if 0 <= w.y < Rows && 0 <= w.x < Cols {
        m[w.y, w.x] := WALL;
      }
      assert walls[..i + 1] == walls[..i] + [w];
    }
    assert walls[..|walls|] == walls;
  }

  /** Every pellet cell that is not a wall becomes a pellet. */
  method PlacePellets(m: array2<int>, level: int, walls: seq<Cell>)
    requires HasGameSize(m)
    requires forall y, x :: 0 <= y < Rows && 0 <= x < Cols ==> m[y, x] == StampedCell(level, walls, Cell(x, y))
    modifies m
    ensures forall y, x :: 0 <= y < Rows && 0 <= x < Cols ==> m[y, x] == ResetCell(level, walls, Cell(x, y))
  {
    for i := 0 to |PelletCells|
      invariant forall y, x :: 0 <= y < Rows && 0 <= x < Cols ==>
        m[y, x] == if Cell(x, y) in PelletCells[..i] && StampedCell(level, walls, Cell(x, y)) != WALL then PELLET
                   else StampedCell(level, walls, Cell(x, y))
    {
      var p := PelletCells[i];
      if 0 <= p.y < Rows && 0 <= p.x < Cols && m[p.y, p.x] != WALL {
        m[p.y, p.x] := PELLET;
      }
      assert PelletCells[..i + 1] == PelletCells[..i] + [p];
    }
    assert PelletCells[..|PelletCells|] == PelletCells;
  }

  /** The code of cell c, with WALL for a cell off the grid. */
  function CellAt(m: array2<int>, c: Cell): int
    reads m
  {
    if 0 <= c.y < m.Length0 && 0 <= c.x < m.Length1 then m[c.y, c.x] else WALL
  }

  /** `m` is the maze resetMap builds for `level` and the stored layout `walls`. */
  ghost predicate IsResetOf(m: array2<int>, level: int, walls: seq<Cell>)
    reads m
  {
    HasGameSize(m) && forall c :: InBounds(c) ==> CellAt(m, c) == ResetCell(level, walls, c)
  }

  /**
    resetMap: rebuild the whole maze for `level`; `walls` is the stored
    random layout, used by level 3 only.
  */
  method ResetMap(m: array2<int>, level: int, walls: seq<Cell>)
    requires HasGameSize(m)
    modifies m
    ensures IsResetOf(m, level, walls)
    ensures Walled(m)
  {
    FillBase(m);
    if level == 3 {
      StampWalls(m, walls);
    } else {
      StampTemplate(m, level);
    }
    PlacePellets(m, level, walls);
    forall y, x | 0 <= y < Rows && 0 <= x < Cols && IsBorder(Cell(x, y))
      ensures m[y, x] == WALL
    {
      assert StampedCell(level, walls, Cell(x, y)) == WALL;
    }
  }

  /** The three ghost homes: top-left, top-right and bottom-left. */
  const Homes: seq<Cell> := [Cell(1, 1), Cell(Cols - 2, 1), Cell(1, Rows - 2)]

  /** Covered means: on some segment of the list. */
  lemma {:induction false} CoveredMeansOnSome(segs: seq<Segment>, c: Cell)
    ensures Covered(segs, c) <==> exists i :: 0 <= i < |segs| && OnSegment(segs[i], c)
    decreases |segs|
  {
    if segs != [] {
      var init := segs[..|segs| - 1];
      CoveredMeansOnSome(init, c);
      if Covered(init, c) {
        var i :| 0 <= i < |init| && OnSegment(init[i], c);
        assert segs[i] == init[i];
      }
      if i :| 0 <= i < |segs| && OnSegment(segs[i], c) {
        if i < |init| {
          assert init[i] == segs[i];
        }
      }
    }
  }

  lemma NotCoveredByFixedTemplate(level: int, c: Cell)
    requires level != 3
    requires c in Homes || c in PelletCells
    ensures !Covered(Template(level), c)
  {
    CoveredMeansOnSome(Template(level), c);
  }

  /**
    Whatever the level, as long as the stored layout is one the generator
    can produce, each ghost home is a dot and each pellet cell holds a pellet.
  */
  lemma HomesAndPelletsOpen(level: int, walls: seq<Cell>)
    requires Shaped(walls)
    ensures forall c :: c in Homes ==> ResetCell(level, walls, c) == DOT
    ensures forall c :: c in PelletCells ==> ResetCell(level, walls, c) == PELLET
  {
    forall c | c in Homes || c in PelletCells
      ensures !TemplateWall(level, walls, c)
    {
      if level != 3 {
        NotCoveredByFixedTemplate(level, c);
      }
    }
  }

  /** The spawn cell (cols / 2, rows / 2) is a dot on every level but 2 ... */
  lemma StartOpen(level: int, walls: seq<Cell>)
    requires level != 2 && Shaped(walls)
    ensures ResetCell(level, walls, Start) == DOT
  {
    if level != 3 {
      CoveredMeansOnSome(Template(level), Start);
    }
  }

  /** ... but level 2's centre column x = 7, rows 6 to 10, walls it in. */
  lemma Level2StartIsWall(walls: seq<Cell>)
    ensures ResetCell(2, walls, Start) == WALL
  {
    CoveredMeansOnSome(Template(2), Start);
    assert OnSegment(Template(2)[4], Start);
  }
}
