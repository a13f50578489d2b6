/**
  The decision part of moveGhostSmooth: which neighbours a ghost may enter,
  and which of them each kind of ghost picks.

  Distances are measured in doubled (half-cell) coordinates so that every
  point the game compares is an integer: the centre of cell c is
  (2 c.x + 1, 2 c.y + 1), and the RANDOM ghost's retreat point
  (1, lastRow - 1) is (2, 2 (lastRow - 1)). Doubling multiplies squared
  distances by 4 and Manhattan distances by 2, which preserves every
  comparison the source makes.
*/
module GhostAI {
  import opened Grid

  datatype GhostKind = Chaser | Random | Ambush

  /** The candidate directions in the order they are tried: right, left, down, up. */
  const GhostDirs: seq<Dir> := [Dir(1, 0), Dir(-1, 0), Dir(0, 1), Dir(0, -1)]

  /** Position of a unit direction in GhostDirs. */
  function Rank(d: Dir): int {
    if d == Dir(1, 0) then 0
    else if d == Dir(-1, 0) then 1
    else if d == Dir(0, 1) then 2
    else 3
  }

  /** The directions appear in try order, each at most once. */
  predicate Ordered(ds: seq<Dir>) {
    forall i, j :: 0 <= i < j < |ds| ==> Rank(ds[i]) < Rank(ds[j])
  }

  lemma GhostDirsOrdered()
    ensures Ordered(GhostDirs)
  {
  }

  /** Putting a lower-ranked direction in front of an ordered tail drawn from later directions. */
  lemma ConsOrdered(ds: seq<Dir>, rest: seq<Dir>)
    requires ds != [] && Ordered(ds) && Ordered(rest)
    requires forall d :: d in rest ==> d in ds[1..]
    ensures Ordered([ds[0]] + rest) && Ordered(ds[1..])
  {
    var r := [ds[0]] + rest;
    forall i, j | 0 <= i < j < |r|
      ensures Rank(r[i]) < Rank(r[j])
    {
      if i == 0 {
        assert r[j] in ds[1..];
        var q :| 0 <= q < |ds[1..]| && ds[1..][q] == r[j];
        assert ds[q + 1] == r[j];
      } else {
        assert r[i] == rest[i - 1] && r[j] == rest[j - 1];
      }
    }
    forall i, j | 0 <= i < j < |ds[1..]|
      ensures Rank(ds[1..][i]) < Rank(ds[1..][j])
    {
      assert ds[1..][i] == ds[i + 1] && ds[1..][j] == ds[j + 1];
    }
  }

  /** The directions of `ds` whose neighbour of `g` exists and is not a wall, in order. */
  function OpenAmong(m: array2<int>, g: Cell, ds: seq<Dir>): (r: seq<Dir>)
    reads m
    ensures forall d :: d in r <==> d in ds && Open(m, Step(g, d))
    ensures Ordered(ds) ==> Ordered(r)
  {
    if ds == [] then []
    else
      var rest := OpenAmong(m, g, ds[1..]);
      assert forall d :: d in ds <==> d == ds[0] || d in ds[1..];
      if Open(m, Step(g, ds[0])) then
        if Ordered(ds) then ConsOrdered(ds, rest); [ds[0]] + rest else [ds[0]] + rest
      else
        if Ordered(ds) then ConsOrdered(ds, []); rest else rest
  }

  /** `ds` without `e`, in order. */
  function Without(ds: seq<Dir>, e: Dir): (r: seq<Dir>)
    ensures forall d :: d in r <==> d in ds && d != e
    ensures Ordered(ds) ==> Ordered(r)
    ensures |r| <= |ds|
  {
    if ds == [] then []
    else
      var rest := Without(ds[1..], e);
      assert forall d :: d in ds <==> d == ds[0] || d in ds[1..];
      if ds[0] != e then
        if Ordered(ds) then ConsOrdered(ds, rest); [ds[0]] + rest else [ds[0]] + rest
      else
        if Ordered(ds) then ConsOrdered(ds, []); rest else rest
  }

  /**
    A direction the ghost may take from `g`: its neighbour is open, and it
    reverses the current heading only when it is the one open direction.
  */
  predicate IsCandidate(m: array2<int>, g: Cell, heading: Dir, d: Dir)
    reads m
  {
    && d in GhostDirs && Open(m, Step(g, d))
    && (d == Reverse(heading) ==> forall e :: e in GhostDirs && Open(m, Step(g, e)) ==> e == d)
  }

  lemma CandidatesAre(m: array2<int>, g: Cell, heading: Dir, possible: seq<Dir>)
    requires forall d :: d in possible <==> d in GhostDirs && Open(m, Step(g, d))
    requires Ordered(possible)
    ensures |possible| > 1 ==> forall d :: d in possible && d != Reverse(heading) <==> IsCandidate(m, g, heading, d)
    ensures |possible| <= 1 ==> forall d :: d in possible <==> IsCandidate(m, g, heading, d)
  {
    if |possible| > 1 {
      assert Rank(possible[0]) < Rank(possible[1]);
      forall d | IsCandidate(m, g, heading, d)
        ensures d != Reverse(heading)
      {
        assert possible[0] in possible && possible[1] in possible;
      }
    } else {
      forall d | d in possible
        ensures IsCandidate(m, g, heading, d)
      {
        forall e | e in GhostDirs && Open(m, Step(g, e))
          ensures e == d
        {
          assert e in possible;
        }
      }
    }
  }

  /** `possible`: the open directions, without the reverse heading when more than one is open. */
  function Candidates(m: array2<int>, g: Cell, heading: Dir): (r: seq<Dir>)
    reads m
    ensures forall d :: d in r <==> IsCandidate(m, g, heading, d)
    ensures Ordered(r)
  {
    GhostDirsOrdered();
    var possible := OpenAmong(m, g, GhostDirs);
    CandidatesAre(m, g, heading, possible);
    if |possible| > 1 then Without(possible, Reverse(heading)) else possible
  }

  /** A point in doubled coordinates. */
  datatype Point = Point(x: int, y: int)

  function Centre(c: Cell): Point {
    Point(2 * c.x + 1, 2 * c.y + 1)
  }

  function Sq(n: int): nat {
    n * n
  }

  /** Squared distance, in doubled coordinates, from the centre of g's neighbour in direction d to t. */
  function Score(g: Cell, d: Dir, t: Point): nat {
    var n := Centre(Step(g, d));
    Sq(t.x - n.x) + Sq(t.y - n.y)
  }

  /** Manhattan distance between two points. */
  function Manhattan(a: Point, b: Point): nat {
    Abs(a.x - b.x) + Abs(a.y - b.y)
  }

  /**
    The point a ghost heads for. CHASER: Pac-Man. AMBUSH: four cells ahead
    of Pac-Man along his heading, unclamped. RANDOM: Pac-Man when more than
    8 cells away (Manhattan), otherwise the point (1, lastRow - 1), where
    lastRow is the maze's last row index.
  */
  function Target(kind: GhostKind, rows: int, g: Cell, pac: Cell, pacDir: Dir): (t: Point)
    ensures kind == Chaser ==> t == Centre(pac)
    ensures kind == Ambush ==> t == Point(Centre(pac).x + 8 * pacDir.dx, Centre(pac).y + 8 * pacDir.dy)
    ensures kind == Random && Abs(g.x - pac.x) + Abs(g.y - pac.y) > 8 ==> t == Centre(pac)
    ensures kind == Random && Abs(g.x - pac.x) + Abs(g.y - pac.y) <= 8 ==> t == Point(2, 2 * (rows - 2))
  {
    match kind
    case Chaser => Centre(pac)
    case Ambush => Point(Centre(pac).x + 8 * pacDir.dx, Centre(pac).y + 8 * pacDir.dy)
    case Random =>
      if Manhattan(Centre(g), Centre(pac)) > 16 then Centre(pac)
      else Point(2, 2 * ((rows - 1) - 1))
  }

  /** minByOrNull: the index of the first direction of least score. */
  function FirstMin(ds: seq<Dir>, g: Cell, t: Point): (k: nat)
    requires |ds| > 0
    ensures k < |ds|
    ensures forall i :: 0 <= i < |ds| ==> Score(g, ds[k], t) <= Score(g, ds[i], t)
    ensures forall i :: 0 <= i < k ==> Score(g, ds[i], t) > Score(g, ds[k], t)
    decreases |ds|
  {
    if |ds| == 1 then 0
    else
      var k := FirstMin(ds[..|ds| - 1], g, t);
      if Score(g, ds[|ds| - 1], t) < Score(g, ds[k], t) then |ds| - 1 else k
  }

  /** Read over directions instead of indices, the first-minimum facts of an ordered list. */
  lemma FirstMinOfOrdered(cs: seq<Dir>, g: Cell, t: Point, k: nat)
    requires Ordered(cs) && k < |cs|
    requires forall i :: 0 <= i < |cs| ==> Score(g, cs[k], t) <= Score(g, cs[i], t)
    requires forall i :: 0 <= i < k ==> Score(g, cs[i], t) > Score(g, cs[k], t)
    ensures forall d :: d in cs ==> Score(g, cs[k], t) <= Score(g, d, t)
    ensures forall d :: d in cs && Rank(d) < Rank(cs[k]) ==> Score(g, d, t) > Score(g, cs[k], t)
  {
    forall d | d in cs
      ensures Score(g, cs[k], t) <= Score(g, d, t)
      ensures Rank(d) < Rank(cs[k]) ==> Score(g, d, t) > Score(g, cs[k], t)
    {
      var i :| 0 <= i < |cs| && cs[i] == d;
    }
  }

  /**
    The direction a ghost of `kind` at `g` with `heading` picks, or None when
    it has no candidate. `pac` and `pacDir` are Pac-Man's cell and heading.
  */
  function ChooseDirection(m: array2<int>, kind: GhostKind, g: Cell, heading: Dir, pac: Cell, pacDir: Dir): (r: Option<Dir>)
    reads m
    ensures r.None? <==> forall d :: !IsCandidate(m, g, heading, d)
    ensures r.Some? ==> IsCandidate(m, g, heading, r.value)
    ensures r.Some? ==> forall d :: IsCandidate(m, g, heading, d) ==>
      Score(g, r.value, Target(kind, m.Length0, g, pac, pacDir)) <= Score(g, d, Target(kind, m.Length0, g, pac, pacDir))
    ensures r.Some? ==> forall d :: IsCandidate(m, g, heading, d) && Rank(d) < Rank(r.value) ==>
      Score(g, d, Target(kind, m.Length0, g, pac, pacDir)) > Score(g, r.value, Target(kind, m.Length0, g, pac, pacDir))
  {
    var cs := Candidates(m, g, heading);
    if cs == [] then None
    else
      var t := Target(kind, m.Length0, g, pac, pacDir);
      var k := FirstMin(cs, g, t);
      FirstMinOfOrdered(cs, g, t, k);
      Some(cs[k])
  }

  /** The cell a ghost occupies and the direction it is heading in. */
  datatype Pose = Pose(cell: Cell, heading: Dir)

  /**
    One decision and one whole-cell move: the ghost turns to the chosen
    direction and enters that neighbour, or stops where it is when it has
    no candidate.
  */
  function GhostStep(m: array2<int>, kind: GhostKind, p: Pose, pac: Cell, pacDir: Dir): (r: Pose)
    reads m
    ensures IsHeading(r.heading)
    ensures r.heading == Still ==> r.cell == p.cell
    ensures r.heading != Still ==> r.cell == Step(p.cell, r.heading) && Open(m, r.cell)
  {
    match ChooseDirection(m, kind, p.cell, p.heading, pac, pacDir)
    case None => Pose(p.cell, Still)
    case Some(d) => Pose(Step(p.cell, d), d)
  }

  /** The step takes a candidate direction, and stops only when there is none. */
  lemma GhostStepTakesCandidate(m: array2<int>, kind: GhostKind, p: Pose, pac: Cell, pacDir: Dir)
    ensures GhostStep(m, kind, p, pac, pacDir).heading != Still ==>
      IsCandidate(m, p.cell, p.heading, GhostStep(m, kind, p, pac, pacDir).heading)
    ensures GhostStep(m, kind, p, pac, pacDir).heading == Still <==> forall d :: !IsCandidate(m, p.cell, p.heading, d)
  {
    var c := ChooseDirection(m, kind, p.cell, p.heading, pac, pacDir);
    if c.Some? {
      assert IsUnit(c.value);
    }
  }

  /** A ghost never turns back while another way is open. */
  lemma NoReverseWithChoice(m: array2<int>, kind: GhostKind, p: Pose, pac: Cell, pacDir: Dir, e: Dir)
    requires e in GhostDirs && e != Reverse(p.heading) && Open(m, Step(p.cell, e))
    ensures GhostStep(m, kind, p, pac, pacDir).heading != Reverse(p.heading) || p.heading == Still
  {
    GhostStepTakesCandidate(m, kind, p, pac, pacDir);
  }

  /** A ghost with an open neighbour always moves. */
  lemma MovesWhenSomewhereOpen(m: array2<int>, kind: GhostKind, p: Pose, pac: Cell, pacDir: Dir, e: Dir)
    requires e in GhostDirs && Open(m, Step(p.cell, e))
    ensures GhostStep(m, kind, p, pac, pacDir).heading != Still
  {
    GhostStepTakesCandidate(m, kind, p, pac, pacDir);
    if e == Reverse(p.heading) && !IsCandidate(m, p.cell, p.heading, e) {
      var f :| f in GhostDirs && Open(m, Step(p.cell, f)) && f != e;
      assert f != Reverse(p.heading);
      assert IsCandidate(m, p.cell, p.heading, f);
    } else {
      assert IsCandidate(m, p.cell, p.heading, e);
    }
  }
}
