/**
  moveGhostSmooth as written, frame by frame, with positions in hundredths
  of a cell: the centre of cell c is 100 c + 50, MOVEMENT_SPEED 0.08 is 8
  and the grid-centre tolerance 0.2 is 20. Every position the frames below
  produce is whole hundredths, so float rounding plays no part in them.

  The point of this module is the discrepancy it exhibits: because the
  tolerance (20) exceeds the distance moved in one frame (8), a ghost is
  "at the grid centre" again on the frame after every move, is snapped back
  to the centre, and never leaves its cell. The rest of the model uses the
  whole-cell step GhostAI.GhostStep instead.
*/
module Motion {
  import opened Grid
  import opened GhostAI

  /** A ghost's position in hundredths of a cell and its heading. */
  datatype Body = Body(x: int, y: int, heading: Dir)

  const Speed: int := 8
  const Tolerance: int := 20

  /** Kotlin's Float.toInt(), truncation toward zero, on hundredths. */
  function Trunc(v: int): int {
    if v >= 0 then v / 100 else -((-v) / 100)
  }

  /** The position of the cell's centre that `v` lies in: toInt() + 0.5. */
  function Snap(v: int): int {
    Trunc(v) * 100 + 50
  }

  /** abs(v - v.toInt() - 0.5) < 0.2 */
  /** On the grid, where coordinates are not negative, snapping twice is snapping once. */
  lemma SnapTwice(v: int)
    ensures v >= 0 ==> Snap(Snap(v)) == Snap(v)
  {
  }

  predicate NearMid(v: int) {
    Abs(v - Trunc(v) * 100 - 50) < Tolerance
  }

  predicate AtGridCenter(b: Body) {
    NearMid(b.x) && NearMid(b.y)
  }

  function CellOf(b: Body): Cell {
    Cell(Trunc(b.x), Trunc(b.y))
  }

  predicate IsWall(m: array2<int>, x: int, y: int)
    reads m
  {
    0 <= y < m.Length0 && 0 <= x < m.Length1 && m[y, x] == WALL
  }

  /**
    The wall test of the glide: the target cell must be on the grid and not
    a wall, and when the move crosses into another cell that cell is tested
    again, looked up along the current row or column.
  */
  predicate CanGlide(m: array2<int>, b: Body, nx: int, ny: int)
    reads m
  {
    var cx, cy, tx, ty := Trunc(b.x), Trunc(b.y), Trunc(nx), Trunc(ny);
    && 0 <= ty < m.Length0 && 0 <= tx < m.Length1 && m[ty, tx] != WALL
    && (cx != tx || cy != ty ==>
          && (if b.heading.dx > 0 && tx > cx then tx < m.Length1 && !IsWall(m, tx, cy)
              else if b.heading.dx < 0 && tx < cx then tx >= 0 && !IsWall(m, tx, cy)
              else true)
          && (if b.heading.dy > 0 && ty > cy then ty < m.Length0 && !IsWall(m, cx, ty)
              else if b.heading.dy < 0 && ty < cy then ty >= 0 && !IsWall(m, cx, ty)
              else true))
  }

  /** The second half of a frame: move 0.08 cells along the heading, or stop at the centre of the current cell. */
  function Glide(m: array2<int>, b: Body): (r: Body)
    reads m
    ensures b.heading == Still ==> r == b
    ensures r.heading == b.heading || r.heading == Still
    ensures b.heading != Still ==>
      (r.heading == b.heading <==> CanGlide(m, b, b.x + Speed * b.heading.dx, b.y + Speed * b.heading.dy))
    ensures r.heading != Still ==> r.x == b.x + Speed * b.heading.dx && r.y == b.y + Speed * b.heading.dy
    ensures b.heading != Still && r.heading == Still ==> r.x == Snap(b.x) && r.y == Snap(b.y)
  {
    if b.heading == Still then b
    else
      var nx, ny := b.x + Speed * b.heading.dx, b.y + Speed * b.heading.dy;
      if CanGlide(m, b, nx, ny) then Body(nx, ny, b.heading)
      else Body(Snap(b.x), Snap(b.y), Still)
  }

  /**
    One frame as written: at the grid centre (or when standing still) the
    ghost takes the decision `choice`, stopping with no candidate and
    otherwise snapping to the centre and turning; then it glides.
  */
  function FrameAsWritten(m: array2<int>, b: Body, choice: Option<Dir>): (r: Body)
    reads m
    ensures !AtGridCenter(b) && b.heading != Still ==> r == Glide(m, b)
    ensures (AtGridCenter(b) || b.heading == Still) && choice.None? ==> r == Body(b.x, b.y, Still)
    ensures (AtGridCenter(b) || b.heading == Still) && choice.Some? ==> r.heading == choice.value || r.heading == Still
    ensures (AtGridCenter(b) || b.heading == Still) && choice.Some? && r.heading != Still ==>
      r.x == Snap(b.x) + Speed * r.heading.dx && r.y == Snap(b.y) + Speed * r.heading.dy
    ensures (AtGridCenter(b) || b.heading == Still) && choice.Some? && r.heading == Still && b.x >= 0 && b.y >= 0 ==>
      r.x == Snap(b.x) && r.y == Snap(b.y)
    ensures IsHeading(b.heading) && (choice.Some? ==> IsUnit(choice.value)) ==> IsHeading(r.heading)
  {
    if AtGridCenter(b) || b.heading == Still then
      match choice
      case None => Body(b.x, b.y, Still)
      case Some(d) => SnapTwice(b.x); SnapTwice(b.y); Glide(m, Body(Snap(b.x), Snap(b.y), d))
    else Glide(m, b)
  }

  /** Pac-Man's cell and heading on one frame. */
  datatype PacView = PacView(cell: Cell, heading: Dir)

  /** Frames in which the decision is the one ChooseDirection makes, against a sequence of Pac-Man views. */
  function RunAsWritten(m: array2<int>, kind: GhostKind, b: Body, pacs: seq<PacView>): (r: Body)
    reads m
    ensures IsHeading(b.heading) ==> IsHeading(r.heading)
    decreases |pacs|
  {
    if pacs == [] then b
    else
      var choice := ChooseDirection(m, kind, CellOf(b), b.heading, pacs[0].cell, pacs[0].heading);
      RunAsWritten(m, kind, FrameAsWritten(m, b, choice), pacs[1..])
  }

  /** Within one frame's move of the centre of cell c, with a heading the game can store. */
  predicate NearCentre(b: Body, c: Cell) {
    && Abs(b.x - (100 * c.x + 50)) <= Speed && Abs(b.y - (100 * c.y + 50)) <= Speed
    && IsHeading(b.heading)
  }

  lemma FrameStaysNearCentre(m: array2<int>, b: Body, c: Cell, choice: Option<Dir>)
    requires InBounds(c) && NearCentre(b, c)
    requires choice.Some? ==> IsUnit(choice.value)
    ensures NearCentre(FrameAsWritten(m, b, choice), c)
  {
    assert Trunc(b.x) == c.x && Trunc(b.y) == c.y;
    assert AtGridCenter(b);
  }

  /**
    Whatever Pac-Man does, a ghost that starts at the centre of a cell is
    within 0.08 of that centre after every frame: it never leaves the cell.
  */
  lemma {:induction false} GhostNeverLeavesCell(m: array2<int>, kind: GhostKind, b: Body, c: Cell, pacs: seq<PacView>)
    requires InBounds(c) && NearCentre(b, c)
    ensures NearCentre(RunAsWritten(m, kind, b, pacs), c)
    ensures CellOf(RunAsWritten(m, kind, b, pacs)) == c
    decreases |pacs|
  {
    if pacs != [] {
      var choice := ChooseDirection(m, kind, CellOf(b), b.heading, pacs[0].cell, pacs[0].heading);
      FrameStaysNearCentre(m, b, c, choice);
      GhostNeverLeavesCell(m, kind, FrameAsWritten(m, b, choice), c, pacs[1..]);
    } else {
      assert Trunc(b.x) == c.x && Trunc(b.y) == c.y;
    }
  }

  /**
    The concrete case: the CHASER ghost starts at the centre of its home
    (1, 1) and Pac-Man sits at his spawn; after any number of frames the
    ghost is still in (1, 1).
  */
  lemma ChaserStaysHome(m: array2<int>, frames: nat)
    ensures CellOf(RunAsWritten(m, Chaser, Body(150, 150, Still), seq(frames, i => PacView(Start, Still)))) == Cell(1, 1)
  {
    GhostNeverLeavesCell(m, Chaser, Body(150, 150, Still), Cell(1, 1), seq(frames, i => PacView(Start, Still)));
  }
}
