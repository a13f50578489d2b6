/**
  The state of one game screen and the rules of the frame loop: queued
  turns, Pac-Man's move, dot and pellet collection, the ghosts' moves,
  ghost/Pac-Man overlap, the power countdown, respawn and full reset.

  Positions are whole cells and every move is one whole-cell step; the
  float interpolation between cell centres is not modelled (see Motion for
  the one place where it changes the outcome).
*/
module Game {
  import opened Grid
  import opened Layout
  import opened Maze
  import opened GhostAI

  // ---------------------------------------------------------------------
  // Power countdown
  // ---------------------------------------------------------------------

  /** pacPowered and pacPowerTimeLeft (milliseconds). */
  datatype Power = Power(powered: bool, timeLeft: int)

  /** How long a pellet powers Pac-Man, and the countdown's period. */
  const PelletMs: int := 8000
  const TickMs: int := 100

  /** Powered exactly while time is left, and time is never negative. */
  predicate Coherent(p: Power) {
    p.timeLeft >= 0 && (p.powered <==> p.timeLeft > 0)
  }

  /** One run of the 100 ms countdown loop. */
  function PowerTick(p: Power, paused: bool): (r: Power)
    ensures paused || p.timeLeft <= 0 ==> r == p
    ensures !paused && p.timeLeft > 0 ==> 0 <= r.timeLeft < p.timeLeft && p.timeLeft - TickMs <= r.timeLeft
    ensures !paused && p.timeLeft > 0 ==> (r.powered <==> p.powered && r.timeLeft > 0)
    ensures Coherent(p) ==> Coherent(r)
  {
    if !paused && p.timeLeft > 0 then
      var t := if p.timeLeft - TickMs < 0 then 0 else p.timeLeft - TickMs;
      Power(if t == 0 then false else p.powered, t)
    else p
  }

  /** `n` countdown runs while the game is not paused. */
  function PowerAfter(p: Power, n: nat): Power
    decreases n
  {
    if n == 0 then p else PowerAfter(PowerTick(p, false), n - 1)
  }

  /**
    From t milliseconds of power, n runs later Pac-Man is still powered with
    t - 100 n left if that is positive, and unpowered with 0 left otherwise.
  */
  lemma {:induction false} PowerRunsDown(t: int, n: nat)
    requires t > 0
    ensures PowerAfter(Power(true, t), n) == if t - TickMs * n > 0 then Power(true, t - TickMs * n) else Power(false, 0)
  {
    if n > 0 {
      var p := PowerTick(Power(true, t), false);
      if t - TickMs > 0 {
        assert p == Power(true, t - TickMs);
        PowerRunsDown(t - TickMs, n - 1);
      } else {
        assert p == Power(false, 0);
        PowerAfterUnpowered(n - 1);
      }
    }
  }

  lemma {:induction false} PowerAfterUnpowered(n: nat)
    ensures PowerAfter(Power(false, 0), n) == Power(false, 0)
  {
    if n > 0 {
      PowerAfterUnpowered(n - 1);
    }
  }

  /** A pellet's power ends on exactly the 80th countdown run. */
  lemma PelletPowerLasts80Ticks()
    ensures PowerAfter(Power(true, PelletMs), 79) == Power(true, 100)
    ensures PowerAfter(Power(true, PelletMs), 80) == Power(false, 0)
  {
    PowerRunsDown(PelletMs, 79);
    PowerRunsDown(PelletMs, 80);
  }

  // ---------------------------------------------------------------------
  // Pac-Man's step
  // ---------------------------------------------------------------------

  datatype PacState = PacState(cell: Cell, heading: Dir)

  /**
    The move block: with a heading, Pac-Man enters the next cell when both
    the cell he is in and that cell are open; otherwise he stops.
  */
  function PacMove(m: array2<int>, p: PacState): (r: PacState)
    reads m
    ensures p.heading == Still ==> r == p
    ensures IsUnit(p.heading) ==> (r.cell != p.cell <==> Open(m, p.cell) && Open(m, Step(p.cell, p.heading)))
    ensures r.cell != p.cell ==> r.cell == Step(p.cell, p.heading) && Open(m, r.cell) && r.heading == p.heading
    ensures p.heading != Still && r.cell == p.cell ==> r.heading == Still
  {
    if p.heading == Still then p
    else
      var target := Step(p.cell, p.heading);
      if Open(m, p.cell) && Open(m, target) then PacState(target, p.heading)
      else PacState(p.cell, Still)
  }

  /**
    The turn block: a queued turn is taken when the neighbour of `c` in its
    direction is open, and then the heading becomes the queued one and the
    queue empties; otherwise heading and queue stay. `r` is the new
    (heading, queued turn).
  */
  function Turn(m: array2<int>, c: Cell, heading: Dir, queued: Dir): (r: (Dir, Dir))
    reads m
    ensures r == (queued, Still) || r == (heading, queued)
    ensures queued == Still ==> r.0 == heading
    ensures queued != Still ==> (r.1 == Still <==> Open(m, Step(c, queued)))
  {
    if queued != Still && Open(m, Step(c, queued)) then (queued, Still) else (heading, queued)
  }

  /** On level 2 Pac-Man's spawn is a wall, so from there no heading moves him. */
  lemma TrappedOnLevel2(m: array2<int>, walls: seq<Cell>, d: Dir)
    requires IsResetOf(m, 2, walls)
    ensures PacMove(m, PacState(Start, d)).cell == Start
  {
    Level2StartIsWall(walls);
    assert CellAt(m, Start) == WALL;
  }

  // ---------------------------------------------------------------------
  // Ghosts
  // ---------------------------------------------------------------------

  /** The home cell of each kind of ghost. */
  function Home(kind: GhostKind): (c: Cell)
    ensures c in Homes
    ensures kind == Chaser ==> c == Cell(1, 1)
    ensures kind == Random ==> c == Cell(Cols - 2, 1)
    ensures kind == Ambush ==> c == Cell(1, Rows - 2)
  {
    match kind
    case Chaser => Cell(1, 1)
    case Random => Cell(Cols - 2, 1)
    case Ambush => Cell(1, Rows - 2)
  }

  /**
    The Ghost record: its kind, its home, the cell it is in, its heading
    and whether it is alive (its colour is presentation only).
  */
  datatype Ghost = Ghost(kind: GhostKind, home: Cell, cell: Cell, heading: Dir, alive: bool)

  /**
    The ghost fullReset creates for `kind`: at its kind's home, standing
    still, alive, which is just what the delayed respawn would make of it.
  */
  function Spawn(kind: GhostKind): (r: Ghost)
    ensures r.kind == kind && r.home == Home(kind) && r.home in Homes
    ensures Respawned(r) == r
  {
    Ghost(kind, Home(kind), Home(kind), Still, true)
  }

  /** The ghost list after replaceAll: one ghost of each kind, in this order. */
  const Spawned: seq<Ghost> := [Spawn(Chaser), Spawn(Random), Spawn(Ambush)]

  /** Its home and its cell are open, and its heading is one the game stores. */
  predicate GhostOk(m: array2<int>, g: Ghost)
    reads m
  {
    g.home == Home(g.kind) && Open(m, g.home) && Open(m, g.cell) && IsHeading(g.heading)
  }

  /** The three ghosts, each GhostOk. */
  predicate GhostsOk(m: array2<int>, gs: seq<Ghost>)
    reads m
  {
    && |gs| == 3
    && forall i :: 0 <= i < |gs| ==> GhostOk(m, gs[i])
  }

  /** After resetMap every ghost's home is open. */
  lemma HomesOpen(m: array2<int>, level: int, walls: seq<Cell>)
    requires IsResetOf(m, level, walls) && Shaped(walls)
    ensures forall kind :: Open(m, Home(kind))
  {
    HomesAndPelletsOpen(level, walls);
    forall kind
      ensures Open(m, Home(kind))
    {
      var h := Home(kind);
      assert CellAt(m, h) == ResetCell(level, walls, h);
    }
  }

  /** The freshly spawned ghosts are valid in any maze where their homes are open. */
  lemma SpawnedOk(m: array2<int>)
    requires forall kind :: Open(m, Home(kind))
    ensures GhostsOk(m, Spawned)
  {
    forall i | 0 <= i < |Spawned|
      ensures GhostOk(m, Spawned[i])
    {
      assert Open(m, Home(Spawned[i].kind));
    }
  }

  /** The ghost after the move loop's turn for it: an alive ghost takes its step, a dead one is skipped. */
  function Moved(m: array2<int>, g: Ghost, pac: Cell, pacDir: Dir): (r: Ghost)
    reads m
    ensures r.kind == g.kind && r.home == g.home && r.alive == g.alive
    ensures !g.alive ==> r == g
    ensures GhostOk(m, g) ==> GhostOk(m, r)
  {
    if g.alive then
      var p := GhostStep(m, g.kind, Pose(g.cell, g.heading), pac, pacDir);
      g.(cell := p.cell, heading := p.heading)
    else g
  }

  /** The forEach over the ghost list: each alive ghost moves, in list order. */
  method MoveAll(m: array2<int>, gs: seq<Ghost>, pac: Cell, pacDir: Dir) returns (r: seq<Ghost>)
    ensures |r| == |gs|
    ensures forall i :: 0 <= i < |gs| ==> r[i] == Moved(m, gs[i], pac, pacDir)
  {
    r := gs;
    for i := 0 to |r|
      invariant |r| == |gs|
      invariant forall j :: 0 <= j < i ==> r[j] == Moved(m, gs[j], pac, pacDir)
      invariant forall j :: i <= j < |r| ==> r[j] == gs[j]
    {
      var g := r[i];
      if g.alive {
        var p := GhostStep(m, g.kind, Pose(g.cell, g.heading), pac, pacDir);
        r := r[i := g.(cell := p.cell, heading := p.heading)];
      }
    }
  }

  /** Moving every ghost keeps the list valid. */
  lemma MovedKeepsOk(m: array2<int>, gs: seq<Ghost>, gs': seq<Ghost>, pac: Cell, pacDir: Dir)
    requires GhostsOk(m, gs) && |gs'| == |gs|
    requires forall i :: 0 <= i < |gs| ==> gs'[i] == Moved(m, gs[i], pac, pacDir)
    ensures GhostsOk(m, gs')
  {
    forall i | 0 <= i < |gs|
      ensures GhostOk(m, gs'[i])
    {
      assert GhostOk(m, gs[i]);
    }
  }

  /** The ghost after the overlap test: an alive ghost in Pac-Man's cell dies when he is powered. */
  function Captured(g: Ghost, pac: Cell, powered: bool): (r: Ghost)
    ensures r.alive <==> g.alive && !(powered && g.cell == pac)
    ensures r.(alive := g.alive) == g
  {
    if g.alive && g.cell == pac && powered then g.(alive := false) else g
  }

  /** An alive ghost shares Pac-Man's cell while he is not powered: the game is over. */
  predicate Catches(gs: seq<Ghost>, pac: Cell, powered: bool): (b: bool)
    ensures b ==> !powered
    ensures b ==> exists i :: 0 <= i < |gs| && gs[i].alive && gs[i].cell == pac
    ensures !powered && (exists i :: 0 <= i < |gs| && gs[i].alive && gs[i].cell == pac) ==> b
  {
    !powered && exists i :: 0 <= i < |gs| && gs[i].alive && gs[i].cell == pac
  }

  /**
    The forEach of the overlap test: `r` are the ghosts after it, `caught`
    tells whether one of them ends the game and `captured` lists, in order,
    the ghosts it captures.
  */
  method CaptureAll(gs: seq<Ghost>, pac: Cell, powered: bool) returns (r: seq<Ghost>, caught: bool, captured: seq<int>)
    ensures |r| == |gs|
    ensures forall i :: 0 <= i < |gs| ==> r[i] == Captured(gs[i], pac, powered)
    ensures caught <==> Catches(gs, pac, powered)
    ensures forall i :: i in captured <==> 0 <= i < |gs| && gs[i].alive && !r[i].alive
    ensures !powered ==> captured == []
  {
    r, caught, captured := gs, false, [];
    for i := 0 to |r|
      invariant |r| == |gs|
      invariant forall j :: 0 <= j < i ==> r[j] == Captured(gs[j], pac, powered)
      invariant forall j :: i <= j < |r| ==> r[j] == gs[j]
      invariant caught <==> Catches(gs[..i], pac, powered)
      invariant forall j :: j in captured <==> 0 <= j < i && gs[j].alive && !r[j].alive
      invariant !powered ==> captured == []
    {
      var g := r[i];
      if g.alive && g.cell == pac {
        if powered {
          r := r[i := g.(alive := false)];
          captured := captured + [i];
        } else {
          caught := true;
        }
      }
      assert gs[..i + 1] == gs[..i] + [gs[i]];
    }
    assert gs[..|gs|] == gs;
  }

  /**
    The overlap test can be read on the ghosts before or after it: when no
    power protects Pac-Man nobody is captured, and with power nobody catches.
  */
  lemma CatchesAfterCapture(gs: seq<Ghost>, gs': seq<Ghost>, pac: Cell, powered: bool)
    requires |gs'| == |gs|
    requires forall i :: 0 <= i < |gs| ==> gs'[i] == Captured(gs[i], pac, powered)
    ensures Catches(gs', pac, powered) <==> Catches(gs, pac, powered)
  {
    if Catches(gs, pac, powered) {
      var i :| 0 <= i < |gs| && gs[i].alive && gs[i].cell == pac;
      assert gs'[i].alive && gs'[i].cell == pac;
    }
  }

  /** Capturing keeps the list valid. */
  lemma CapturedKeepsOk(m: array2<int>, gs: seq<Ghost>, gs': seq<Ghost>, pac: Cell, powered: bool)
    requires GhostsOk(m, gs) && |gs'| == |gs|
    requires forall i :: 0 <= i < |gs| ==> gs'[i] == Captured(gs[i], pac, powered)
    ensures GhostsOk(m, gs')
  {
    forall i | 0 <= i < |gs|
      ensures GhostOk(m, gs'[i])
    {
      assert GhostOk(m, gs[i]);
    }
  }

  /** The delayed respawn: back home, no heading, alive. */
  function Respawned(g: Ghost): (r: Ghost)
    ensures r.kind == g.kind && r.home == g.home
    ensures r.cell == g.home && r.heading == Still && r.alive
  {
    g.(cell := g.home, heading := Still, alive := true)
  }

  // ---------------------------------------------------------------------
  // Collection
  // ---------------------------------------------------------------------

  /** The dots eaten so far and Pac-Man's power: what collection scores. */
  datatype Tally = Tally(dots: int, power: Power)

  /**
    Collection on a cell holding `code`: a dot or a pellet is eaten, which
    empties the cell and scores 1, and a pellet also gives 8000 ms of power;
    any other cell changes nothing. `r` is the cell's new code and the new
    tally.
  */
  function Eat(code: int, t: Tally): (r: (int, Tally))
    ensures r.1.dots == t.dots + 1 <==> code == DOT || code == PELLET
    ensures r.1.dots != t.dots + 1 ==> r == (code, t)
    ensures r.1.dots == t.dots + 1 ==> r.0 == EMPTY && r.1.power == (if code == PELLET then Power(true, PelletMs) else t.power)
    ensures r.0 == WALL <==> code == WALL
    ensures Coherent(t.power) ==> Coherent(r.1.power)
  {
    if code == DOT then (EMPTY, t.(dots := t.dots + 1))
    else if code == PELLET then (EMPTY, Tally(t.dots + 1, Power(true, PelletMs)))
    else (code, t)
  }

  // ---------------------------------------------------------------------
  // The game screen
  // ---------------------------------------------------------------------

  class Game {
    /** The maze, map[y][x] in the source. */
    const maze: array2<int>
    var randomWalls: seq<Cell>
    var pac: Cell
    var dir: Dir
    var nextDir: Dir
    var collectedDots: int
    var pacPowered: bool
    var pacPowerTimeLeft: int
    var gameOver: bool
    var ghosts: seq<Ghost>

    /** What every operation needs of the maze's size and the stored layout. */
    predicate Ready()
      reads this`randomWalls
    {
      HasGameSize(maze) && Shaped(randomWalls)
    }

    /** Pac-Man is inside the walled maze, on an open cell or on his spawn, with stored headings. */
    predicate PacOk()
      reads this`pac, this`dir, this`nextDir, maze
    {
      && Walled(maze)
      && IsInterior(pac) && (Open(maze, pac) || pac == Start)
      && IsHeading(dir) && IsHeading(nextDir)
    }

    predicate ScoreOk()
      reads this`collectedDots, this`pacPowered, this`pacPowerTimeLeft
    {
      collectedDots >= 0 && Coherent(Power(pacPowered, pacPowerTimeLeft))
    }

    predicate Valid()
      reads this, maze
    {
      Ready() && PacOk() && ScoreOk() && GhostsOk(maze, ghosts)
    }

    /** collectedDots, pacPowered and pacPowerTimeLeft. */
    function Score(): Tally
      reads this`collectedDots, this`pacPowered, this`pacPowerTimeLeft
    {
      Tally(collectedDots, Power(pacPowered, pacPowerTimeLeft))
    }

    /**
      Pac-Man's part of the frame, from the state before it to the state
      after: the turn, his move and collection at the cell he ends in. The
      layout is kept.
    */
    twostate predicate PacPlayed()
      reads this, maze
    {
      var turn := old(Turn(maze, pac, dir, nextDir));
      var step := old(PacMove(maze, PacState(pac, turn.0)));
      var c := pac;
      && randomWalls == old(randomWalls)
      && nextDir == turn.1 && PacState(c, dir) == step
      && HasGameSize(maze) && InBounds(c)
      && (forall y, x :: 0 <= y < Rows && 0 <= x < Cols && Cell(x, y) != c ==> maze[y, x] == old(maze[y, x]))
      && (maze[c.y, c.x], Score()) == Eat(old(maze[c.y, c.x]), old(Score()))
    }

    /**
      The ghosts' part of the frame: every ghost's move against Pac-Man's
      cell and heading, then the overlap test, read on the final ghosts.
      `captured` lists the ghosts the overlap test kills.
    */
    twostate predicate GhostsPlayed(captured: seq<int>)
      reads this, maze
    {
      && |ghosts| == |old(ghosts)|
      && (forall i :: 0 <= i < |ghosts| ==> ghosts[i] == Captured(Moved(maze, old(ghosts)[i], pac, dir), pac, pacPowered))
      && (gameOver <==> old(gameOver) || Catches(ghosts, pac, pacPowered))
      && (forall i :: i in captured <==> 0 <= i < |ghosts| && old(ghosts)[i].alive && !ghosts[i].alive)
      && (!pacPowered ==> captured == [])
    }

    /** The screen as first composed: no random layout yet, then fullReset(0). */
    constructor()
      ensures Valid() && randomWalls == []
      ensures IsResetOf(maze, 0, [])
      ensures collectedDots == 0 && pac == Start && !gameOver && ghosts == Spawned
    {
      maze := new int[Rows, Cols]((y, x) => DOT);
      randomWalls := [];
      pac := Start;
      dir, nextDir := Still, Still;
      collectedDots := 0;
      pacPowered, pacPowerTimeLeft := false, 0;
      gameOver := false;
      ghosts := [];
      new;
      FullReset(0);
    }

    /**
      fullReset: zero the score, rebuild the maze for `level`, put Pac-Man on
      his spawn with no heading and no power, replace the ghosts by fresh
      ones at their homes and clear the game over flag.
    */
    method FullReset(level: int)
      requires Ready()
      modifies this, maze
      ensures Valid()
      ensures IsResetOf(maze, level, randomWalls)
      ensures randomWalls == old(randomWalls)
      ensures collectedDots == 0 && pac == Start && dir == Still && nextDir == Still
      ensures !pacPowered && pacPowerTimeLeft == 0 && !gameOver
      ensures ghosts == Spawned
    {
      collectedDots := 0;
      ResetMap(maze, level, randomWalls);
      HomesOpen(maze, level, randomWalls);
      SpawnedOk(maze);
      pac, dir, nextDir := Start, Still, Still;
      pacPowerTimeLeft, pacPowered := 0, false;
      ghosts, gameOver := Spawned, false;
    }

    /** An arrow button or a tilt queues a turn. */
    method QueueTurn(d: Dir)
      requires Valid() && IsUnit(d)
      modifies this`nextDir
      ensures Valid() && nextDir == d
    {
      nextDir := d;
    }

    /**
      A queued turn is taken when the neighbour in its direction is open:
      the heading becomes the queued one and the queue empties. Otherwise
      both stay as they are.
    */
    method TryTurn()
      requires Valid()
      modifies this`dir, this`nextDir
      ensures Valid()
      ensures (dir, nextDir) == Turn(maze, pac, old(dir), old(nextDir))
    {
      if nextDir != Still && Open(maze, Step(pac, nextDir)) {
        dir := nextDir;
        nextDir := Still;
      }
    }

    /** Pac-Man's move for this frame. */
    method MovePac()
      requires Valid()
      modifies this`pac, this`dir
      ensures Valid()
      ensures PacState(pac, dir) == PacMove(maze, PacState(old(pac), old(dir)))
    {
      if dir != Still {
        var target := Step(pac, dir);
        if Open(maze, pac) && Open(maze, target) {
          pac := target;
          OpenIsInterior(maze, pac);
        } else {
          dir := Still;
        }
      }
    }

    /**
      Collection at Pac-Man's cell: a dot or a pellet is eaten (the cell
      becomes empty) and scores 1; a pellet also powers Pac-Man for 8000 ms.
      Any other cell changes nothing.
    */
    method Collect()
      requires Valid()
      modifies this`collectedDots, this`pacPowered, this`pacPowerTimeLeft, maze
      ensures Valid()
      ensures forall y, x :: 0 <= y < Rows && 0 <= x < Cols && Cell(x, y) != pac ==> maze[y, x] == old(maze[y, x])
      ensures old(maze[pac.y, pac.x]) == DOT ==>
        && maze[pac.y, pac.x] == EMPTY && collectedDots == old(collectedDots) + 1
        && pacPowered == old(pacPowered) && pacPowerTimeLeft == old(pacPowerTimeLeft)
      ensures old(maze[pac.y, pac.x]) == PELLET ==>
        && maze[pac.y, pac.x] == EMPTY && collectedDots == old(collectedDots) + 1
        && pacPowered && pacPowerTimeLeft == PelletMs
      ensures old(maze[pac.y, pac.x]) != DOT && old(maze[pac.y, pac.x]) != PELLET ==>
        && maze[pac.y, pac.x] == old(maze[pac.y, pac.x]) && collectedDots == old(collectedDots)
        && pacPowered == old(pacPowered) && pacPowerTimeLeft == old(pacPowerTimeLeft)
    {
      var here := maze[pac.y, pac.x];
      if here == DOT {
        maze[pac.y, pac.x] := EMPTY;
        collectedDots := collectedDots + 1;
      } else if here == PELLET {
        maze[pac.y, pac.x] := EMPTY;
        collectedDots := collectedDots + 1;
        pacPowered := true;
        pacPowerTimeLeft := PelletMs;
      }
      assert forall c :: old(Open(maze, c)) ==> Open(maze, c);
    }

    /**
      The move loop: every alive ghost takes its decision and step against
      Pac-Man's cell and heading after his own move; dead ghosts stay put.
    */
    method MoveGhosts()
      requires Valid()
      modifies this`ghosts
      ensures Valid()
      ensures |ghosts| == |old(ghosts)|
      ensures forall i :: 0 <= i < |ghosts| ==> ghosts[i] == Moved(maze, old(ghosts)[i], pac, dir)
    {
      var gs := MoveAll(maze, ghosts, pac, dir);
      MovedKeepsOk(maze, ghosts, gs, pac, dir);
      ghosts := gs;
    }

    /**
      The overlap loop: a powered Pac-Man captures every alive ghost in his
      cell; otherwise any such ghost ends the game. `captured` lists, in
      order, the ghosts whose delayed respawn is launched.
    */
    method ResolveCollisions() returns (captured: seq<int>)
      requires Valid()
      modifies this`ghosts, this`gameOver
      ensures Valid()
      ensures |ghosts| == |old(ghosts)|
      ensures forall i :: 0 <= i < |ghosts| ==> ghosts[i] == Captured(old(ghosts)[i], pac, pacPowered)
      ensures gameOver <==> old(gameOver) || Catches(old(ghosts), pac, pacPowered)
      ensures forall i :: i in captured <==> 0 <= i < |ghosts| && old(ghosts)[i].alive && !ghosts[i].alive
      ensures !pacPowered ==> captured == []
    {
      var gs, caught;
      gs, caught, captured := CaptureAll(ghosts, pac, pacPowered);
      CapturedKeepsOk(maze, ghosts, gs, pac, pacPowered);
      ghosts := gs;
      if caught {
        gameOver := true;
      }
    }

    /** The delayed respawn of the captured ghost `i`. */
    method RespawnGhost(i: int)
      requires Valid() && 0 <= i < |ghosts|
      modifies this`ghosts
      ensures Valid()
      ensures ghosts == old(ghosts)[i := Respawned(old(ghosts)[i])]
    {
      ghosts := ghosts[i := Respawned(ghosts[i])];
    }

    /** One run of the power countdown loop. */
    method CountdownTick(paused: bool)
      requires Valid()
      modifies this`pacPowered, this`pacPowerTimeLeft
      ensures Valid()
      ensures Power(pacPowered, pacPowerTimeLeft) == PowerTick(Power(old(pacPowered), old(pacPowerTimeLeft)), paused)
    {
      var p := PowerTick(Power(pacPowered, pacPowerTimeLeft), paused);
      pacPowered, pacPowerTimeLeft := p.powered, p.timeLeft;
    }

    /**
      generateRandomLayout: store the first connected attempt drawn from
      `draws` as the new layout, or keep the old one when the random numbers
      run out before any attempt is connected.
    */
    method NewRandomLayout(draws: seq<real>) returns (generated: bool)
      requires Valid()
      modifies this`randomWalls
      ensures Valid()
      ensures generated <==> FirstConnected(draws, 0).Some?
      ensures generated ==> WallSet(randomWalls) == FirstConnected(draws, 0).value && Connected(randomWalls)
      ensures !generated ==> randomWalls == old(randomWalls)
    {
      var r := GenerateRandomLayout(draws);
      if r.Some? {
        randomWalls := r.value;
        generated := true;
      } else {
        generated := false;
      }
    }

    /**
      The frame proper: the turn, Pac-Man's move, collection, the ghosts'
      moves and the overlap test, in that order. `captured` are the ghosts
      whose respawn this frame launches.
    */
    method Play() returns (captured: seq<int>)
      requires Valid()
      modifies this, maze
      ensures Valid()
      ensures PacPlayed() && GhostsPlayed(captured)
    {
      PlayPac();
      captured := PlayGhosts();
    }

    /** Pac-Man's blocks of the frame: the turn, his move and collection. */
    method PlayPac()
      requires Valid()
      modifies this`dir, this`nextDir, this`pac, this`collectedDots, this`pacPowered, this`pacPowerTimeLeft, maze
      ensures Valid()
      ensures PacPlayed()
    {
      Steer();
      ghost var here := maze[pac.y, pac.x];
      ghost var tally := Score();
      Collect();
      assert (maze[pac.y, pac.x], Score()) == Eat(here, tally);
    }

    /** The turn and the move. */
    method Steer()
      requires Valid()
      modifies this`dir, this`nextDir, this`pac
      ensures Valid()
      ensures var turn := old(Turn(maze, pac, dir, nextDir));
        nextDir == turn.1 && PacState(pac, dir) == PacMove(maze, PacState(old(pac), turn.0))
    {
      ghost var turn := Turn(maze, pac, dir, nextDir);
      TryTurn();
      assert (dir, nextDir) == turn;
      MovePac();
    }

    /** The ghosts' blocks of the frame: their moves and the overlap test. */
    method PlayGhosts() returns (captured: seq<int>)
      requires Valid()
      modifies this`ghosts, this`gameOver
      ensures Valid()
      ensures GhostsPlayed(captured)
    {
      MoveGhosts();
      ghost var moved := ghosts;
      captured := ResolveCollisions();
      CatchesAfterCapture(moved, ghosts, pac, pacPowered);
    }

    /**
      The first frame after fullReset(level): Pac-Man stays on his spawn
      with no heading and eats the spawn's dot (on level 2 the spawn is a
      wall and holds none), the rest of the maze is as resetMap builds it,
      the fresh ghosts take their first step and none of them is captured.
    */
    ghost predicate Restarted(level: int, captured: seq<int>)
      reads this, maze
    {
      && pac == Start && dir == Still && nextDir == Still
      && HasGameSize(maze)
      && (forall c :: InBounds(c) && c != Start ==> CellAt(maze, c) == ResetCell(level, randomWalls, c))
      && CellAt(maze, Start) == (if level == 2 then WALL else EMPTY)
      && Score() == Tally(if level == 2 then 0 else 1, Power(false, 0))
      && |ghosts| == |Spawned| && (forall i :: 0 <= i < |ghosts| ==> ghosts[i] == Moved(maze, Spawned[i], Start, Still))
      && (gameOver <==> Catches(ghosts, Start, false))
      && captured == []
    }

    /**
      One run of the game loop. Nothing happens while paused or while the
      level selector is shown; otherwise a finished game is reset first and
      then the frame is played.
    */
    method Tick(level: int, paused: bool, selectorShown: bool) returns (captured: seq<int>)
      requires Valid()
      modifies this, maze
      ensures Valid()
      ensures randomWalls == old(randomWalls)
      ensures paused || selectorShown ==> unchanged(this) && unchanged(maze) && captured == []
      ensures !paused && !selectorShown && !old(gameOver) ==> PacPlayed() && GhostsPlayed(captured)
      ensures !paused && !selectorShown && old(gameOver) ==> Restarted(level, captured)
    {
      captured := [];
      if !paused && !selectorShown {
        if gameOver {
          FullReset(level);
          captured := FirstFrame(level);
        } else {
          captured := Play();
        }
      }
    }

    /** The frame played right after fullReset(level). */
    method FirstFrame(level: int) returns (captured: seq<int>)
      requires Valid() && IsResetOf(maze, level, randomWalls)
      requires pac == Start && dir == Still && nextDir == Still && Score() == Tally(0, Power(false, 0))
      requires ghosts == Spawned && !gameOver
      modifies this, maze
      ensures Valid()
      ensures randomWalls == old(randomWalls)
      ensures Restarted(level, captured)
    {
      captured := Play();
      if level == 2 {
        Level2StartIsWall(randomWalls);
      } else {
        StartOpen(level, randomWalls);
      }
      assert old(CellAt(maze, Start)) == ResetCell(level, randomWalls, Start);
      assert pac == Start && dir == Still && nextDir == Still;
      assert Score() == Tally(if level == 2 then 0 else 1, Power(false, 0));
      forall c | InBounds(c) && c != Start
        ensures CellAt(maze, c) == ResetCell(level, randomWalls, c)
      {
        assert maze[c.y, c.x] == old(maze[c.y, c.x]);
      }
      forall i | 0 <= i < |ghosts|
        ensures ghosts[i] == Moved(maze, Spawned[i], Start, Still)
      {
      }
    }
  }
}
