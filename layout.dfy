/**
  The procedural maze of level 3: a random, left-right mirrored wall list
  and the flood-fill test that keeps only fully connected layouts.
*/
module Layout {
  import opened Grid

  function WallSet(walls: seq<Cell>): set<Cell> {
    set w | w in walls
  }

  /** A cell the flood fill may enter: inside the border and not a wall. */
  predicate Passable(ws: set<Cell>, c: Cell) {
    IsInterior(c) && c !in ws
  }

  predicate Adjacent(a: Cell, b: Cell) {
    Abs(a.x - b.x) + Abs(a.y - b.y) == 1
  }

  /** The flood fill's neighbour offsets, in the order it tries them. */
  const FillOrder: seq<Dir> := [Dir(0, 1), Dir(0, -1), Dir(1, 0), Dir(-1, 0)]

  lemma AdjacentIsFillStep(a: Cell, b: Cell)
    requires Adjacent(a, b)
    ensures exists k :: 0 <= k < |FillOrder| && b == Step(a, FillOrder[k])
  {
    if b.y == a.y + 1 {
      assert b == Step(a, FillOrder[0]);
    } else if b.y == a.y - 1 {
      assert b == Step(a, FillOrder[1]);
    } else if b.x == a.x + 1 {
      assert b == Step(a, FillOrder[2]);
    } else {
      assert b == Step(a, FillOrder[3]);
    }
  }

  /**
    A walk from Pac-Man's spawn: each later cell is a 4-neighbour of the one
    before and passable. The spawn itself is never tested against the walls.
  */
  ghost predicate IsWalk(ws: set<Cell>, p: seq<Cell>) {
    && |p| > 0 && p[0] == Start
    && forall i :: 0 < i < |p| ==> Adjacent(p[i - 1], p[i]) && Passable(ws, p[i])
  }

  ghost predicate Reachable(ws: set<Cell>, c: Cell) {
    exists p :: IsWalk(ws, p) && p[|p| - 1] == c
  }

  /** The layout property the generator insists on. */
  ghost predicate Connected(walls: seq<Cell>) {
    Linked(WallSet(walls))
  }

  /** Every passable cell can be reached from the spawn. */
  ghost predicate Linked(ws: set<Cell>) {
    forall c :: Passable(ws, c) ==> Reachable(ws, c)
  }

  lemma ExtendWalk(ws: set<Cell>, p: seq<Cell>, n: Cell)
    requires IsWalk(ws, p) && Adjacent(p[|p| - 1], n) && Passable(ws, n)
    ensures IsWalk(ws, p + [n]) && (p + [n])[|p|] == n
  {
    var q := p + [n];
    forall i | 0 < i < |q|
      ensures Adjacent(q[i - 1], q[i]) && Passable(ws, q[i])
    {
      if i < |p| {
        assert q[i - 1] == p[i - 1] && q[i] == p[i];
      }
    }
  }

  lemma ReachableStep(ws: set<Cell>, c: Cell, n: Cell)
    requires Reachable(ws, c) && Adjacent(c, n) && Passable(ws, n)
    ensures Reachable(ws, n)
  {
    var p :| IsWalk(ws, p) && p[|p| - 1] == c;
    ExtendWalk(ws, p, n);
  }

  /** Every passable 4-neighbour of `c` has been seen. */
  ghost predicate Expanded(ws: set<Cell>, seen: set<Cell>, c: Cell) {
    forall k :: 0 <= k < |FillOrder| && Passable(ws, Step(c, FillOrder[k])) ==> Step(c, FillOrder[k]) in seen
  }

  /** A walk never leaves a set that holds the spawn and is closed under expansion. */
  lemma {:induction false} WalkStaysInside(ws: set<Cell>, seen: set<Cell>, p: seq<Cell>)
    requires Start in seen
    requires forall c :: c in seen ==> Expanded(ws, seen, c)
    requires IsWalk(ws, p)
    ensures p[|p| - 1] in seen
  {
    if |p| > 1 {
      var q := p[..|p| - 1];
      assert IsWalk(ws, q) by {
        forall i | 0 < i < |q|
          ensures Adjacent(q[i - 1], q[i]) && Passable(ws, q[i])
        {
          assert q[i - 1] == p[i - 1] && q[i] == p[i];
        }
      }
      WalkStaysInside(ws, seen, q);
      var a, b := p[|p| - 2], p[|p| - 1];
      assert a == q[|q| - 1];
      assert Adjacent(a, b) && Passable(ws, b);
      AdjacentIsFillStep(a, b);
      assert Expanded(ws, seen, a);
    }
  }

  lemma ClosedHoldsReachable(ws: set<Cell>, seen: set<Cell>)
    requires Start in seen
    requires forall c :: c in seen ==> Expanded(ws, seen, c)
    ensures forall c :: Reachable(ws, c) ==> c in seen
  {
    forall c | Reachable(ws, c)
      ensures c in seen
    {
      var p :| IsWalk(ws, p) && p[|p| - 1] == c;
      WalkStaysInside(ws, seen, p);
    }
  }

  ghost const AllCells: set<Cell> := set x: int, y: int | 0 <= x < Cols && 0 <= y < Rows :: Cell(x, y)

  lemma AddShrinksRest(seen: set<Cell>, n: Cell)
    requires n in AllCells && n !in seen
    ensures |AllCells - (seen + {n})| < |AllCells - seen|
  {
    assert AllCells - (seen + {n}) == (AllCells - seen) - {n};
  }

  /** The visited array marks exactly the cells of `seen`. */
  ghost predicate Marks(visited: array2<bool>, seen: set<Cell>)
    reads visited
  {
    && visited.Length0 == Rows && visited.Length1 == Cols
    && seen <= AllCells
    && forall y, x :: 0 <= y < Rows && 0 <= x < Cols ==> (visited[y, x] <==> Cell(x, y) in seen)
  }

  /**
    One neighbour test of the flood fill: enqueue and mark Step(cur, d)
    when it is an interior, unvisited, non-wall cell.
  */
  method Visit(ws: set<Cell>, visited: array2<bool>, queue: seq<Cell>, ghost seen: set<Cell>, cur: Cell, d: Dir)
    returns (queue': seq<Cell>, ghost seen': set<Cell>)
    requires Marks(visited, seen) && Reachable(ws, cur) && Adjacent(cur, Step(cur, d))
    modifies visited
    ensures Marks(visited, seen')
    ensures Passable(ws, Step(cur, d)) ==> Step(cur, d) in seen'
    ensures || (seen' == seen && queue' == queue)
            || (&& Step(cur, d) !in seen && Passable(ws, Step(cur, d)) && Reachable(ws, Step(cur, d))
                && seen' == seen + {Step(cur, d)} && queue' == queue + [Step(cur, d)])
  {
    var nx, ny := cur.x + d.dx, cur.y + d.dy;
    queue', seen' := queue, seen;
    if 1 <= nx < Cols - 1 && 1 <= ny < Rows - 1 && !visited[ny, nx] && Cell(nx, ny) !in ws {
      var n := Cell(nx, ny);
      ReachableStep(ws, cur, n);
      visited[ny, nx] := true;
      queue' := queue + [n];
      seen' := seen + {n};
      assert n in AllCells;
    }
  }

  /** The first `k` neighbours of `c` in fill order are seen, if passable. */
  ghost predicate ExpandedUpTo(ws: set<Cell>, seen: set<Cell>, c: Cell, k: int) {
    forall j :: 0 <= j < k && j < |FillOrder| && Passable(ws, Step(c, FillOrder[j])) ==> Step(c, FillOrder[j]) in seen
  }

  lemma FillStepIsAdjacent(c: Cell, k: int)
    requires 0 <= k < |FillOrder|
    ensures Adjacent(c, Step(c, FillOrder[k]))
  {
  }

  lemma ExpandedUpToNext(ws: set<Cell>, seen: set<Cell>, seen': set<Cell>, c: Cell, k: int)
    requires 0 <= k < |FillOrder| && ExpandedUpTo(ws, seen, c, k) && seen <= seen'
    requires Passable(ws, Step(c, FillOrder[k])) ==> Step(c, FillOrder[k]) in seen'
    ensures ExpandedUpTo(ws, seen', c, k + 1)
  {
  }

  /**
    One round of the flood fill: try the four neighbours of `cur`, in fill
    order, enqueueing each one that is passable and not yet visited.
  */
  method Expand(ws: set<Cell>, visited: array2<bool>, queue: seq<Cell>, ghost seen: set<Cell>, ghost done: set<Cell>, cur: Cell)
    returns (queue': seq<Cell>, ghost seen': set<Cell>)
    requires Marks(visited, seen) && Reachable(ws, cur)
    requires forall c :: c in seen ==> Reachable(ws, c)
    requires forall c :: c in seen <==> c in done || c == cur || c in queue
    modifies visited
    ensures Marks(visited, seen') && seen <= seen'
    ensures seen' == seen ==> queue' == queue
    ensures seen' != seen ==> |AllCells - seen'| < |AllCells - seen|
    ensures forall c :: c in seen' ==> Reachable(ws, c)
    ensures forall c :: c in seen' <==> c in done || c == cur || c in queue'
    ensures Expanded(ws, seen', cur)
  {
    queue', seen' := queue, seen;
    for k := 0 to |FillOrder|
      invariant Marks(visited, seen')
      invariant seen <= seen'
      invariant seen' == seen ==> queue' == queue
      invariant seen' != seen ==> |AllCells - seen'| < |AllCells - seen|
      invariant forall c :: c in seen' ==> Reachable(ws, c)
      invariant forall c :: c in seen' <==> c in done || c == cur || c in queue'
      invariant ExpandedUpTo(ws, seen', cur, k)
    {
      ghost var before := seen';
      FillStepIsAdjacent(cur, k);
      queue', seen' := Visit(ws, visited, queue', seen', cur, FillOrder[k]);
      if seen' != before {
        AddShrinksRest(before, Step(cur, FillOrder[k]));
      }
      ExpandedUpToNext(ws, before, seen', cur, k);
    }
  }

  /** Expansion is kept when more cells are seen. */
  lemma ExpandedGrows(ws: set<Cell>, seen: set<Cell>, seen': set<Cell>, done: set<Cell>)
    requires forall c :: c in done ==> Expanded(ws, seen, c)
    requires seen <= seen'
    ensures forall c :: c in done ==> Expanded(ws, seen', c)
  {
  }

  /**
    The breadth-first flood fill from Pac-Man's spawn: afterwards the
    visited cells are exactly those reachable from it.
  */
  method FloodFill(ws: set<Cell>) returns (visited: array2<bool>, ghost seen: set<Cell>)
    ensures fresh(visited) && Marks(visited, seen)
    ensures forall c :: c in seen <==> Reachable(ws, c)
  {
    visited := new bool[Rows, Cols]((y, x) => false);
    var queue := [Start];
    visited[Start.y, Start.x] := true;
    seen := {Start};
    ghost var done: set<Cell> := {};
    assert IsWalk(ws, [Start]);
    assert Start in AllCells;

    while queue != []
      invariant Marks(visited, seen)
      invariant Start in seen
      invariant forall c :: c in seen ==> Reachable(ws, c)
      invariant forall c :: c in seen <==> c in done || c in queue
      invariant forall c :: c in done ==> Expanded(ws, seen, c)
      decreases |AllCells - seen|, |queue|
    {
      var cur := queue[0];
      queue := queue[1..];
      ghost var before := seen;
      queue, seen := Expand(ws, visited, queue, seen, done, cur);
      ExpandedGrows(ws, before, seen, done);
      done := done + {cur};
    }
    ClosedHoldsReachable(ws, seen);
  }

  /**
    Breadth-first flood fill from Pac-Man's spawn over the interior cells
    that are not in `walls`; true exactly when it reaches every such cell.
  */
  method IsLayoutValid(walls: seq<Cell>) returns (ok: bool)
    ensures ok <==> Connected(walls)
  {
    var wallSet := WallSet(walls);
    var visited, seen := FloodFill(wallSet);
    for y := 1 to Rows - 1
      invariant forall yy, xx :: 1 <= yy < y && 1 <= xx < Cols - 1 ==> Cell(xx, yy) in wallSet || visited[yy, xx]
    {
      for x := 1 to Cols - 1
        invariant forall yy, xx :: 1 <= yy < y && 1 <= xx < Cols - 1 ==> Cell(xx, yy) in wallSet || visited[yy, xx]
        invariant forall xx :: 1 <= xx < x ==> Cell(xx, y) in wallSet || visited[y, xx]
      {
        if Cell(x, y) !in wallSet && !visited[y, x] {
          assert Passable(wallSet, Cell(x, y)) && !Reachable(wallSet, Cell(x, y));
          return false;
        }
      }
    }
    forall c | Passable(wallSet, c)
      ensures Reachable(wallSet, c)
    {
      assert visited[c.y, c.x];
    }
    return true;
  }

  predicate NearStart(c: Cell) {
    Abs(c.x - Start.x) <= 1 && Abs(c.y - Start.y) <= 1
  }

  /** The 3 x 3 corners around the two left-hand ghost homes. */
  predicate LeftGhostCorner(c: Cell) {
    (c.x <= 2 && c.y <= 2) || (c.x <= 2 && c.y >= Rows - 3)
  }

  function Mirror(c: Cell): Cell {
    Cell(Cols - 1 - c.x, c.y)
  }

  /** What every wall list the generator builds satisfies. */
  predicate Shaped(walls: seq<Cell>) {
    && (forall w :: w in walls ==>
          && 2 <= w.y <= Rows - 3 && 2 <= w.x <= Cols - 3
          && !NearStart(w)
          && !LeftGhostCorner(w) && !LeftGhostCorner(Mirror(w)))
    && Symmetric(walls)
  }

  /** The mirror image of every wall is a wall. */
  predicate Symmetric(walls: seq<Cell>) {
    forall w {:trigger Mirror(w)} :: w in walls ==> Mirror(w) in walls
  }

  /** Adding a left-half cell outside the excluded areas, with its mirror, keeps the shape. */
  lemma AddKeepsShaped(walls: seq<Cell>, x: int, y: int)
    requires Shaped(walls)
    requires 2 <= y <= Rows - 3 && 2 <= x <= Cols / 2
    requires !(Abs(x - Start.x) <= 1 && Abs(y - Start.y) <= 1)
    requires !((x <= 2 && y <= 2) || (x <= 2 && y >= Rows - 3))
    ensures x == Cols - 1 - x ==> Shaped(walls + [Cell(x, y)])
    ensures x != Cols - 1 - x ==> Shaped(walls + [Cell(x, y)] + [Cell(Cols - 1 - x, y)])
  {
    var c := Cell(x, y);
    var added := if x == Cols - 1 - x then walls + [c] else walls + [c] + [Mirror(c)];
    assert Mirror(Mirror(c)) == c;
    forall w | w in added
      ensures Mirror(w) in added
    {
      if w in walls {
        assert Mirror(w) in walls;
      }
    }
    assert Symmetric(added);
  }

  /** A cell the generator draws a number for: the left half of rows 2 .. rows-3, outside the spawn and ghost areas. */
  predicate Sampled(c: Cell) {
    2 <= c.y <= Rows - 3 && 2 <= c.x <= Cols / 2 && !NearStart(c) && !LeftGhostCorner(c)
  }

  /** The number of sampled cells in row `y` left of column `x`. */
  function RowCount(y: int, x: int): nat
    decreases x
  {
    if x <= 2 then 0 else RowCount(y, x - 1) + (if Sampled(Cell(x - 1, y)) then 1 else 0)
  }

  /** The number of sampled cells in the rows above row `y`. */
  function RowsBefore(y: int): nat
    decreases y
  {
    if y <= 2 then 0 else RowsBefore(y - 1) + RowCount(y - 1, Cols / 2 + 1)
  }

  /** Which draw of an attempt decides cell `c`: the attempt scans row by row, left to right. */
  function DrawIndex(c: Cell): nat {
    RowsBefore(c.y) + RowCount(c.y, c.x)
  }

  /** The number of draws one attempt makes. */
  const AttemptDraws: nat := 70

  /** Rows 2 and rows-3 lose a ghost corner cell, rows 7 to 9 the two spawn cells. */
  lemma RowSize(y: int)
    requires 2 <= y <= Rows - 3
    ensures RowCount(y, Cols / 2 + 1) == if 7 <= y <= 9 then 4 else if y == 2 || y == Rows - 3 then 5 else 6
  {
    assert RowCount(y, 3) == if y == 2 || y == Rows - 3 then 0 else 1;
    assert RowCount(y, 4) == RowCount(y, 3) + 1;
    assert RowCount(y, 5) == RowCount(y, 4) + 1;
    assert RowCount(y, 6) == RowCount(y, 5) + 1;
    assert RowCount(y, 7) == RowCount(y, 6) + if 7 <= y <= 9 then 0 else 1;
  }

  /** The sampled cells above row `y`: 5 in row 2, 6 in rows 3 to 6, 4 in rows 7 to 9, then 6 again. */
  lemma {:induction false} RowsBeforeIs(y: int)
    requires 2 <= y <= Rows - 2
    ensures RowsBefore(y) == if y <= 2 then 0 else if y <= 7 then 5 + 6 * (y - 3)
      else if y <= 10 then 29 + 4 * (y - 7) else if y <= Rows - 3 then 41 + 6 * (y - 10) else 70
  {
    if y > 2 {
      RowsBeforeIs(y - 1);
      RowSize(y - 1);
      assert RowsBefore(y) == RowsBefore(y - 1) + RowCount(y - 1, Cols / 2 + 1);
    }
  }

  lemma {:induction false} RowCountGrows(y: int, x: int, x': int)
    requires x <= x'
    ensures RowCount(y, x) <= RowCount(y, x')
    decreases x' - x
  {
    if x < x' {
      RowCountGrows(y, x, x' - 1);
    }
  }

  lemma {:induction false} RowsBeforeGrow(y: int, y': int)
    requires y <= y'
    ensures RowsBefore(y) <= RowsBefore(y')
    decreases y' - y
  {
    if y < y' {
      RowsBeforeGrow(y, y' - 1);
    }
  }

  /** A sampled cell has fewer sampled cells left of it than its whole row has. */
  lemma RowCountBelow(c: Cell)
    requires Sampled(c)
    ensures RowCount(c.y, c.x) < RowCount(c.y, Cols / 2 + 1)
  {
    assert RowCount(c.y, c.x + 1) == RowCount(c.y, c.x) + 1;
    RowCountGrows(c.y, c.x + 1, Cols / 2 + 1);
  }

  /** Every sampled cell has its own draw among the attempt's 70. */
  lemma DrawIndexInRange(c: Cell)
    requires Sampled(c)
    ensures DrawIndex(c) < AttemptDraws
  {
    RowCountBelow(c);
    IndexBelowNextRow(c.y, RowCount(c.y, c.x));
  }

  lemma IndexBelowNextRow(y: int, k: nat)
    requires 2 <= y <= Rows - 3 && k < RowCount(y, Cols / 2 + 1)
    ensures RowsBefore(y) + k < AttemptDraws
  {
    assert RowsBefore(y + 1) == RowsBefore(y) + RowCount(y, Cols / 2 + 1);
    RowsBeforeIs(y + 1);
  }

  /** The draw of sampled cell `c` in the attempt starting at `from` was under 0.25. */
  predicate DrawnWall(draws: seq<real>, from: nat, c: Cell) {
    Sampled(c) && from + DrawIndex(c) < |draws| && draws[from + DrawIndex(c)] < 0.25
  }

  /** A wall of the attempt at `from`: its own draw or its mirror image's draw was under 0.25. */
  predicate AttemptWall(draws: seq<real>, from: nat, c: Cell) {
    DrawnWall(draws, from, c) || DrawnWall(draws, from, Mirror(c))
  }

  /** `c` comes before cell (x, y) in the scan. */
  predicate ScannedBefore(c: Cell, y: int, x: int) {
    c.y < y || (c.y == y && c.x < x)
  }

  /** Once the scan has reached cell (x, y), `walls` holds the wall pairs of exactly the draws under 0.25 so far. */
  ghost predicate WallsSoFar(walls: seq<Cell>, draws: seq<real>, from: nat, y: int, x: int) {
    forall c :: c in walls <==>
      (DrawnWall(draws, from, c) && ScannedBefore(c, y, x)) || (DrawnWall(draws, from, Mirror(c)) && ScannedBefore(Mirror(c), y, x))
  }

  lemma MirrorTwice(c: Cell)
    ensures Mirror(Mirror(c)) == c
  {
  }

  /** The walls `walls` holds after the scan's step over the sampled cell (x, y), given whether its draw makes a wall. */
  function Drawn(walls: seq<Cell>, x: int, y: int, wall: bool): seq<Cell> {
    if wall then
      if x != Cols - 1 - x then walls + [Cell(x, y)] + [Cell(Cols - 1 - x, y)] else walls + [Cell(x, y)]
    else walls
  }

  /** The cells of Drawn: the old walls and, for a wall draw, the cell and its mirror image. */
  lemma DrawnHas(walls: seq<Cell>, x: int, y: int, wall: bool, c: Cell)
    ensures c in Drawn(walls, x, y, wall) <==> c in walls || (wall && (c == Cell(x, y) || c == Mirror(Cell(x, y))))
  {
  }

  /** The scan's step over a sampled cell: its draw decides whether its wall pair joins the list. */
  lemma DrawStep(walls: seq<Cell>, draws: seq<real>, from: nat, y: int, x: int)
    requires Sampled(Cell(x, y))
    requires WallsSoFar(walls, draws, from, y, x)
    ensures WallsSoFar(Drawn(walls, x, y, DrawnWall(draws, from, Cell(x, y))), draws, from, y, x + 1)
  {
    var here := Cell(x, y);
    var wall := DrawnWall(draws, from, here);
    var walls' := Drawn(walls, x, y, wall);
    forall c
      ensures c in walls' <==>
        (DrawnWall(draws, from, c) && ScannedBefore(c, y, x + 1)) || (DrawnWall(draws, from, Mirror(c)) && ScannedBefore(Mirror(c), y, x + 1))
    {
      DrawnHas(walls, x, y, wall, c);
      MirrorTwice(c);
      assert ScannedBefore(c, y, x + 1) <==> ScannedBefore(c, y, x) || c == here;
      assert ScannedBefore(Mirror(c), y, x + 1) <==> ScannedBefore(Mirror(c), y, x) || Mirror(c) == here;
      assert c == Mirror(here) <==> Mirror(c) == here;
    }
  }

  /** The scan's step over a skipped cell changes nothing. */
  lemma SkipStep(walls: seq<Cell>, draws: seq<real>, from: nat, y: int, x: int)
    requires !Sampled(Cell(x, y))
    requires WallsSoFar(walls, draws, from, y, x)
    ensures WallsSoFar(walls, draws, from, y, x + 1)
  {
    forall c
      ensures (DrawnWall(draws, from, c) && ScannedBefore(c, y, x + 1)) <==> (DrawnWall(draws, from, c) && ScannedBefore(c, y, x))
    {
    }
  }

  /** The end of a row is the start of the next: no sampled cell lies beyond column cols/2. */
  lemma RowStep(walls: seq<Cell>, draws: seq<real>, from: nat, y: int)
    requires WallsSoFar(walls, draws, from, y, Cols / 2 + 1)
    ensures WallsSoFar(walls, draws, from, y + 1, 2)
  {
    forall c
      ensures (DrawnWall(draws, from, c) && ScannedBefore(c, y + 1, 2)) <==> (DrawnWall(draws, from, c) && ScannedBefore(c, y, Cols / 2 + 1))
    {
    }
  }

  /** After the last row every sampled cell has been scanned. */
  lemma ScanDone(walls: seq<Cell>, draws: seq<real>, from: nat)
    requires WallsSoFar(walls, draws, from, Rows - 2, 2)
    ensures forall c :: c in walls <==> AttemptWall(draws, from, c)
  {
    forall c
      ensures DrawnWall(draws, from, c) ==> ScannedBefore(c, Rows - 2, 2)
    {
    }
  }

  /** The wall set of the attempt that starts at draw `from`. */
  ghost function AttemptWalls(draws: seq<real>, from: nat): set<Cell> {
    set x, y | 0 <= x < Cols && 0 <= y < Rows && AttemptWall(draws, from, Cell(x, y)) :: Cell(x, y)
  }

  lemma AttemptWallsAre(draws: seq<real>, from: nat, walls: seq<Cell>)
    requires forall c :: c in walls <==> AttemptWall(draws, from, c)
    ensures WallSet(walls) == AttemptWalls(draws, from)
  {
    forall c | AttemptWall(draws, from, c)
      ensures c in AttemptWalls(draws, from)
    {
      assert 0 <= c.x < Cols && 0 <= c.y < Rows;
    }
  }

  /** The first draw of the `j`-th attempt counted from draw `from`. */
  function AttemptStart(from: nat, j: nat): nat {
    from + AttemptDraws * j
  }

  /** The flood fill accepts the attempt that starts at draw `from`. */
  ghost predicate Accepted(draws: seq<real>, from: nat) {
    Linked(AttemptWalls(draws, from))
  }

  /** The do-while's outcome from draw `from` on: the wall set of its first connected attempt, if any. */
  ghost function FirstConnected(draws: seq<real>, from: nat): Option<set<Cell>>
    decreases |draws| - from
  {
    if from + AttemptDraws > |draws| then None
    else if Accepted(draws, from) then Some(AttemptWalls(draws, from))
    else FirstConnected(draws, from + AttemptDraws)
  }

  /**
    FirstConnected is the earliest complete attempt whose walls are
    connected, and it is None exactly when no complete attempt is.
  */
  lemma {:induction false} FirstConnectedIsFirst(draws: seq<real>, from: nat)
    ensures FirstConnected(draws, from).None? <==>
      forall j: nat :: AttemptStart(from, j) + AttemptDraws <= |draws| ==> !Accepted(draws, AttemptStart(from, j))
    ensures FirstConnected(draws, from).Some? ==>
      exists j: nat :: && AttemptStart(from, j) + AttemptDraws <= |draws|
                       && FirstConnected(draws, from).value == AttemptWalls(draws, AttemptStart(from, j))
                       && Accepted(draws, AttemptStart(from, j))
                       && forall i: nat :: i < j ==> !Accepted(draws, AttemptStart(from, i))
    decreases |draws| - from
  {
    if from + AttemptDraws <= |draws| {
      assert AttemptStart(from, 0) == from;
      if Accepted(draws, from) {
        assert FirstConnected(draws, from).value == AttemptWalls(draws, AttemptStart(from, 0));
      } else {
        var rest := from + AttemptDraws;
        FirstConnectedIsFirst(draws, rest);
        assert FirstConnected(draws, from) == FirstConnected(draws, rest);
        if FirstConnected(draws, rest).Some? {
          var j: nat :| && AttemptStart(rest, j) + AttemptDraws <= |draws|
                        && FirstConnected(draws, rest).value == AttemptWalls(draws, AttemptStart(rest, j))
                        && Accepted(draws, AttemptStart(rest, j))
                        && forall i: nat :: i < j ==> !Accepted(draws, AttemptStart(rest, i));
          assert AttemptStart(from, j + 1) == AttemptStart(rest, j);
          forall i: nat | i < j + 1
            ensures !Accepted(draws, AttemptStart(from, i))
          {
            if i > 0 {
              assert AttemptStart(from, i) == AttemptStart(rest, i - 1);
            }
          }
        } else {
          forall j: nat | AttemptStart(from, j) + AttemptDraws <= |draws|
            ensures !Accepted(draws, AttemptStart(from, j))
          {
            if j > 0 {
              assert AttemptStart(from, j) == AttemptStart(rest, j - 1);
            }
          }
        }
      }
    }
  }

  /**
    The wall list an attempt from draw `from` has built when its scan
    reaches cell (x, y): row by row, left to right, each sampled cell's
    draw adds its wall pair when it is under 0.25.
  */
  function ScanWalls(draws: seq<real>, from: nat, y: int, x: int): seq<Cell>
    decreases y, x
  {
    if x <= 2 then
      if y <= 2 then [] else ScanWalls(draws, from, y - 1, Cols / 2 + 1)
    else
      var prev := ScanWalls(draws, from, y, x - 1);
      var c := Cell(x - 1, y);
      if Sampled(c) then Drawn(prev, c.x, c.y, DrawnWall(draws, from, c)) else prev
  }

  /** ScanWalls holds the wall pairs of exactly the draws under 0.25 so far. */
  lemma {:induction false} ScanWallsSoFar(draws: seq<real>, from: nat, y: int, x: int)
    requires 2 <= y && 2 <= x <= Cols / 2 + 1
    ensures WallsSoFar(ScanWalls(draws, from, y, x), draws, from, y, x)
    decreases y, x
  {
    if x == 2 {
      if y > 2 {
        ScanWallsSoFar(draws, from, y - 1, Cols / 2 + 1);
        SoFarNextRow(draws, from, y - 1);
      }
    } else {
      ScanWallsSoFar(draws, from, y, x - 1);
      SoFarNextColumn(draws, from, y, x - 1);
    }
  }

  lemma SoFarNextColumn(draws: seq<real>, from: nat, y: int, x: int)
    requires 2 <= x
    requires WallsSoFar(ScanWalls(draws, from, y, x), draws, from, y, x)
    ensures WallsSoFar(ScanWalls(draws, from, y, x + 1), draws, from, y, x + 1)
  {
    var prev := ScanWalls(draws, from, y, x);
    ScanStep(draws, from, y, x);
    if Sampled(Cell(x, y)) {
      DrawStep(prev, draws, from, y, x);
    } else {
      SkipStep(prev, draws, from, y, x);
    }
  }

  lemma SoFarNextRow(draws: seq<real>, from: nat, y: int)
    requires 2 <= y
    requires WallsSoFar(ScanWalls(draws, from, y, Cols / 2 + 1), draws, from, y, Cols / 2 + 1)
    ensures WallsSoFar(ScanWalls(draws, from, y + 1, 2), draws, from, y + 1, 2)
  {
    var prev := ScanWalls(draws, from, y, Cols / 2 + 1);
    assert ScanWalls(draws, from, y + 1, 2) == prev;
    RowStep(prev, draws, from, y);
  }

  /** A sampled cell's draw keeps the wall list shaped. */
  lemma DrawnShaped(walls: seq<Cell>, x: int, y: int, wall: bool)
    requires Shaped(walls) && Sampled(Cell(x, y))
    ensures Shaped(Drawn(walls, x, y, wall))
  {
    if wall {
      AddKeepsShaped(walls, x, y);
    }
  }

  /** Every wall list a scan builds has the generator's shape. */
  lemma {:induction false} ScanWallsShaped(draws: seq<real>, from: nat, y: int, x: int)
    ensures Shaped(ScanWalls(draws, from, y, x))
    decreases y, x
  {
    if x <= 2 {
      if y > 2 {
        ScanWallsShaped(draws, from, y - 1, Cols / 2 + 1);
      }
    } else {
      ScanWallsShaped(draws, from, y, x - 1);
      var c := Cell(x - 1, y);
      if Sampled(c) {
        DrawnShaped(ScanWalls(draws, from, y, x - 1), c.x, c.y, DrawnWall(draws, from, c));
      }
    }
  }

  /** One column of the scan: the count and the wall list advance exactly when the cell is sampled. */
  lemma ScanStep(draws: seq<real>, from: nat, y: int, x: int)
    requires 2 <= x
    ensures RowCount(y, x + 1) == RowCount(y, x) + (if Sampled(Cell(x, y)) then 1 else 0)
    ensures ScanWalls(draws, from, y, x + 1) ==
      if Sampled(Cell(x, y)) then Drawn(ScanWalls(draws, from, y, x), x, y, DrawnWall(draws, from, Cell(x, y)))
      else ScanWalls(draws, from, y, x)
  {
  }

  /**
    One pass of the inner loop, at cell (x, y): a sampled cell takes the
    next draw, and a draw under 0.25 adds the cell and its mirror image.
    `complete` is false when no draw is left for a sampled cell.
  */
  method SampleCell(draws: seq<real>, from: nat, y: int, x: int, walls0: seq<Cell>, next0: nat)
    returns (walls: seq<Cell>, next: nat, complete: bool)
    requires 2 <= y <= Rows - 3 && 2 <= x <= Cols / 2
    requires next0 == from + RowsBefore(y) + RowCount(y, x) <= |draws|
    requires walls0 == ScanWalls(draws, from, y, x)
    ensures complete ==> next == from + RowsBefore(y) + RowCount(y, x + 1) <= |draws| && walls == ScanWalls(draws, from, y, x + 1)
    ensures !complete ==> from + AttemptDraws > |draws|
  {
    ScanStep(draws, from, y, x);
    walls, next, complete := walls0, next0, true;
    var isPacArea := Abs(x - Start.x) <= 1 && Abs(y - Start.y) <= 1;
    var isGhostArea := (x <= 2 && y <= 2) || (x <= 2 && y >= Rows - 3);
    if !isPacArea && !isGhostArea {
      assert Sampled(Cell(x, y));
      if next == |draws| {
        DrawIndexInRange(Cell(x, y));
        complete := false;
        return;
      }
      var draw := draws[next];
      assert DrawnWall(draws, from, Cell(x, y)) == (draw < 0.25);
      next := next + 1;
      if draw < 0.25 {
        walls := walls + [Cell(x, y)];
        if x != Cols - 1 - x {
          walls := walls + [Cell(Cols - 1 - x, y)];
        }
      }
    } else {
      assert !Sampled(Cell(x, y));
    }
  }

  /**
    One row of an attempt: the inner loop over columns 2 .. cols/2 of row
    `y`. `complete` is false when the draws run out within the row.
  */
  method SampleRow(draws: seq<real>, from: nat, y: int, walls0: seq<Cell>, next0: nat)
    returns (walls: seq<Cell>, next: nat, complete: bool)
    requires 2 <= y <= Rows - 3
    requires next0 == from + RowsBefore(y) <= |draws|
    requires walls0 == ScanWalls(draws, from, y, 2)
    ensures complete ==> next == from + RowsBefore(y + 1) <= |draws| && walls == ScanWalls(draws, from, y + 1, 2)
    ensures !complete ==> from + AttemptDraws > |draws|
  {
    walls, next := walls0, next0;
    for x := 2 to Cols / 2 + 1
      invariant next == from + RowsBefore(y) + RowCount(y, x) <= |draws|
      invariant walls == ScanWalls(draws, from, y, x)
    {
      walls, next, complete := SampleCell(draws, from, y, x, walls, next);
      if !complete {
        return;
      }
    }
    complete := true;
  }

  /**
    One attempt of the generator: scan the left half of rows 2 .. rows-3 row
    by row, skip the spawn and ghost areas, and draw one number per remaining
    cell; a draw under 0.25 makes the cell and its mirror image walls.
    `complete` is false when the draws run out during the attempt.
  */
  method SampleWalls(draws: seq<real>, from: nat) returns (walls: seq<Cell>, next: nat, complete: bool)
    requires from <= |draws|
    ensures Shaped(walls)
    ensures complete <==> from + AttemptDraws <= |draws|
    ensures complete ==> next == from + AttemptDraws
    ensures complete ==> forall c :: c in walls <==> AttemptWall(draws, from, c)
    ensures !complete ==> walls == []
  {
    walls, next := [], from;
    for y := 2 to Rows - 2
      invariant next == from + RowsBefore(y) <= |draws|
      invariant walls == ScanWalls(draws, from, y, 2)
    {
      walls, next, complete := SampleRow(draws, from, y, walls, next);
      if !complete {
        walls := [];
        return;
      }
    }
    ScanWallsSoFar(draws, from, Rows - 2, 2);
    ScanWallsShaped(draws, from, Rows - 2, 2);
    ScanDone(walls, draws, from);
    RowsBeforeIs(Rows - 2);
    complete := true;
  }

  /**
    The generator's do-while: sample until the flood fill accepts. The
    random numbers come from `draws`; the result is None when they run out
    before an attempt is accepted.
  */
  method GenerateRandomLayout(draws: seq<real>) returns (r: Option<seq<Cell>>)
    ensures r.None? <==> FirstConnected(draws, 0).None?
    ensures r.Some? ==> WallSet(r.value) == FirstConnected(draws, 0).value
    ensures r.Some? ==> Connected(r.value) && Shaped(r.value)
  {
    var next: nat := 0;
    while true
      invariant next <= |draws|
      invariant FirstConnected(draws, next) == FirstConnected(draws, 0)
      decreases |draws| - next
    {
      var walls, after, complete := SampleWalls(draws, next);
      if !complete {
        return None;
      }
      AttemptWallsAre(draws, next, walls);
      var ok := IsLayoutValid(walls);
      if ok {
        return Some(walls);
      }
      next := after;
    }
  }
}
