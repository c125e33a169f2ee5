/**
  Five-in-a-row detection from the last-played cell, as `computeWin` in the
  server (and its copy in the browser client) performs it.

  `WinOf` is the functional definition: for each of the four axis directions
  in the fixed order horizontal, vertical, diagonal down-right, diagonal
  down-left, it builds the maximal run of cells of the played cell's colour
  through the played cell, ordered from the backward end to the forward end,
  and reports the first run of length at least five. `ComputeWin` is the
  loop implementation, proved to return the same result. `RunOfFive` is an
  independent statement of "five in a row through the cell", and
  `WinIffRunOfFive` proves the two agree in both directions.
 */
module WinDetector {
  import opened Board

  datatype Pos = Pos(r: int, c: int)

  /** A step on the grid: (row delta, column delta). */
  datatype Dir = Dir(dr: int, dc: int)

  /** The four axis directions in scan order. */
  const Dirs: seq<Dir> := [Dir(0, 1), Dir(1, 0), Dir(1, 1), Dir(1, -1)]

  /** The outcome of a win check: no win, or the winning line. */
  datatype WinResult = NoWin | Win(line: seq<Pos>)

  /** A single king-move step (never the zero step). */
  predicate Unit(d: Dir)
  {
    -1 <= d.dr <= 1 && -1 <= d.dc <= 1 && (d.dr != 0 || d.dc != 0)
  }

  function Back(d: Dir): Dir
  {
    Dir(-d.dr, -d.dc)
  }

  function Next(p: Pos, d: Dir): Pos
  {
    Pos(p.r + d.dr, p.c + d.dc)
  }

  /** x moved k steps of size s, for s in {-1, 0, 1} (kept linear for the solver). */
  function Shift(x: int, s: int, k: int): int
  {
    if s == 1 then x + k else if s == -1 then x - k else x
  }

  /** The cell k steps behind p along d. */
  function Behind(p: Pos, d: Dir, k: int): Pos
  {
    Along(p, d, -k)
  }

  /** The cell k steps from p along d (k may be negative). */
  function Along(p: Pos, d: Dir, k: int): Pos
  {
    Pos(Shift(p.r, d.dr, k), Shift(p.c, d.dc, k))
  }

  /** Cell p is on the grid and holds colour `color`. */
  predicate Holds(bd: Board, p: Pos, color: int)
    requires WellFormed(bd)
  {
    InRange(p.r, p.c) && bd[p.r][p.c] == color
  }

  /** Steps left before a walk from p along d leaves the grid. */
  function EdgeDistance(p: Pos, d: Dir): int
  {
    if d.dr == 1 then Grid - p.r
    else if d.dr == -1 then p.r + 1
    else if d.dc == 1 then Grid - p.c
    else p.c + 1
  }

  /** The cells from p onward along d, while they are on the grid and hold `color`. */
  function Ray(bd: Board, p: Pos, d: Dir, color: int): seq<Pos>
    requires WellFormed(bd) && Unit(d)
    decreases EdgeDistance(p, d)
  {
    if Holds(bd, p, color) then [p] + Ray(bd, Next(p, d), d, color) else []
  }

  /** Number of steps from q backward (against d) over cells of `color` before the walk stops. */
  function BackSteps(bd: Board, q: Pos, d: Dir, color: int): (n: int)
    requires WellFormed(bd) && Unit(d)
    ensures n >= 0
    decreases EdgeDistance(q, Back(d))
  {
    var n := Next(q, Back(d));
    if Holds(bd, n, color) then 1 + BackSteps(bd, n, d, color) else 0
  }

  /** The backward end of the run of `color` through p along d. */
  function LineStart(bd: Board, p: Pos, d: Dir, color: int): Pos
    requires WellFormed(bd) && Unit(d)
  {
    Along(p, d, -BackSteps(bd, p, d, color))
  }

  /**
    The maximal run of p's colour through p along d, ordered from its
    backward end to its forward end.
   */
  function LineThrough(bd: Board, p: Pos, d: Dir): seq<Pos>
    requires WellFormed(bd) && InRange(p.r, p.c) && Unit(d)
  {
    var color := bd[p.r][p.c];
    Ray(bd, LineStart(bd, p, d, color), d, color)
  }

  /** The lines through p along the four directions, in scan order. */
  function Lines(bd: Board, p: Pos): (ls: seq<seq<Pos>>)
    requires WellFormed(bd) && InRange(p.r, p.c)
    ensures |ls| == |Dirs|
    ensures forall j :: 0 <= j < |Dirs| ==> ls[j] == LineThrough(bd, p, Dirs[j])
  {
    seq(|Dirs|, j requires 0 <= j < |Dirs| => LineThrough(bd, p, Dirs[j]))
  }

  /** The first of lines[i..] with five or more cells, as a win; no win if there is none. */
  function FirstLong(lines: seq<seq<Pos>>, i: nat): WinResult
    decreases |lines| - i
  {
    if i >= |lines| then NoWin
    else if |lines[i]| >= 5 then Win(lines[i])
    else FirstLong(lines, i + 1)
  }

  /** The result `computeWin(bd, r, c)` returns. */
  function WinOf(bd: Board, r: int, c: int): WinResult
    requires WellFormed(bd) && InRange(r, c)
  {
    FirstLong(Lines(bd, Pos(r, c)), 0)
  }

  // ---------------------------------------------------------------------
  // Independent statement of a win

  /** Every cell k steps along d from p, for a <= k <= b, holds `color`. */
  ghost predicate Solid(bd: Board, p: Pos, d: Dir, a: int, b: int, color: int)
    requires WellFormed(bd)
  {
    forall k :: a <= k <= b ==> Holds(bd, Along(p, d, k), color)
  }

  /** Some axis holds five or more consecutive cells of the colour at (r, c), (r, c) among them. */
  ghost predicate RunOfFive(bd: Board, r: int, c: int)
    requires WellFormed(bd) && InRange(r, c)
  {
    exists i, a, b :: 0 <= i < |Dirs| && a <= 0 <= b && b - a >= 4
      && Solid(bd, Pos(r, c), Dirs[i], a, b, bd[r][c])
  }

  /**
    `line` is a maximal run of `color` along d: every cell holds the colour,
    each entry is one step of d after the previous, and the cells just beyond
    both ends do not hold the colour.
   */
  ghost predicate IsRun(bd: Board, line: seq<Pos>, d: Dir, color: int)
    requires WellFormed(bd)
  {
    && |line| >= 1
    && (forall j :: 0 <= j < |line| ==> Holds(bd, line[j], color))
    && (forall j :: 0 <= j < |line| - 1 ==> line[j + 1] == Next(line[j], d))
    && !Holds(bd, Next(line[|line| - 1], d), color)
    && !Holds(bd, Next(line[0], Back(d)), color)
  }

  // ---------------------------------------------------------------------
  // Lemmas

  lemma DirsUnit()
    ensures forall j :: 0 <= j < |Dirs| ==> Unit(Dirs[j])
  {
  }

  lemma AlongStep(p: Pos, d: Dir, k: int)
    requires Unit(d)
    ensures Along(Next(p, d), d, k) == Along(p, d, k + 1)
    ensures Next(Along(p, d, k), d) == Along(p, d, k + 1)
    ensures Along(Next(p, Back(d)), d, k) == Along(p, d, k - 1)
    ensures Next(Along(p, d, k), Back(d)) == Along(p, d, k - 1)
    ensures Along(p, d, 0) == p
  {
  }

  lemma AlongCompose(p: Pos, d: Dir, a: int, b: int)
    requires Unit(d)
    ensures Along(Along(p, d, a), d, b) == Along(p, d, a + b)
  {
  }

  /** The walk visits the cells 0, 1, 2, ... steps from p, all of `color`, and stops at the first that is not. */
  lemma {:induction false} RayFacts(bd: Board, p: Pos, d: Dir, color: int)
    requires WellFormed(bd) && Unit(d)
    ensures forall k :: 0 <= k < |Ray(bd, p, d, color)| ==>
      Ray(bd, p, d, color)[k] == Along(p, d, k) && Holds(bd, Along(p, d, k), color)
    ensures !Holds(bd, Along(p, d, |Ray(bd, p, d, color)|), color)
    decreases EdgeDistance(p, d)
  {
    AlongStep(p, d, 0);
    if Holds(bd, p, color) {
      var q := Next(p, d);
      var rest := Ray(bd, q, d, color);
      var ray := Ray(bd, p, d, color);
      assert ray == [p] + rest;
      RayFacts(bd, q, d, color);
      forall k | 0 <= k < |ray|
        ensures ray[k] == Along(p, d, k) && Holds(bd, Along(p, d, k), color)
      {
        if k > 0 {
          AlongStep(p, d, k - 1);
          assert ray[k] == rest[k - 1];
        }
      }
      AlongStep(p, d, |rest|);
    }
  }

  /** If the first n cells from p along d all hold `color`, the walk is at least n long. */
  lemma RayAtLeast(bd: Board, p: Pos, d: Dir, color: int, n: nat)
    requires WellFormed(bd) && Unit(d)
    requires forall k :: 0 <= k < n ==> Holds(bd, Along(p, d, k), color)
    ensures |Ray(bd, p, d, color)| >= n
  {
    RayFacts(bd, p, d, color);
  }

  /** The backward walk from q visits the cells 1, 2, ... steps behind q, all of `color`, and stops at the first that is not. */
  lemma {:induction false} BackFacts(bd: Board, q: Pos, d: Dir, color: int)
    requires WellFormed(bd) && Unit(d)
    ensures forall k :: 1 <= k <= BackSteps(bd, q, d, color) ==> Holds(bd, Behind(q, d, k), color)
    ensures !Holds(bd, Behind(q, d, BackSteps(bd, q, d, color) + 1), color)
    decreases EdgeDistance(q, Back(d))
  {
    var n := Next(q, Back(d));
    AlongStep(q, d, 0);
    assert Behind(q, d, 1) == n;
    if Holds(bd, n, color) {
      var m := BackSteps(bd, n, d, color);
      BackFacts(bd, n, d, color);
      forall k | 1 <= k <= BackSteps(bd, q, d, color)
        ensures Holds(bd, Behind(q, d, k), color)
      {
        if k > 1 {
          AlongCompose(q, d, -1, -(k - 1));
          assert Behind(q, d, k) == Behind(n, d, k - 1);
        }
      }
      AlongCompose(q, d, -1, -(m + 1));
      assert Behind(q, d, m + 2) == Behind(n, d, m + 1);
    }
  }

  /** If the first n cells behind q along d all hold `color`, the backward walk is at least n long. */
  lemma BackAtLeast(bd: Board, q: Pos, d: Dir, color: int, n: nat)
    requires WellFormed(bd) && Unit(d)
    requires forall k :: 1 <= k <= n ==> Holds(bd, Behind(q, d, k), color)
    ensures BackSteps(bd, q, d, color) >= n
  {
    BackFacts(bd, q, d, color);
  }

  /** Number of cells behind p in its run along d. */
  function BackLen(bd: Board, p: Pos, d: Dir): int
    requires WellFormed(bd) && InRange(p.r, p.c) && Unit(d)
  {
    BackSteps(bd, p, d, bd[p.r][p.c])
  }

  /** The cells from BackLen steps behind p to p all hold p's colour. */
  lemma StartRunHolds(bd: Board, p: Pos, d: Dir, k: int)
    requires WellFormed(bd) && InRange(p.r, p.c) && Unit(d)
    requires 0 <= k <= BackLen(bd, p, d)
    ensures Along(LineStart(bd, p, d, bd[p.r][p.c]), d, k) == Along(p, d, k - BackLen(bd, p, d))
    ensures Holds(bd, Along(p, d, k - BackLen(bd, p, d)), bd[p.r][p.c])
  {
    var B := BackLen(bd, p, d);
    AlongCompose(p, d, -B, k);
    AlongStep(p, d, 0);
    if k < B {
      BackFacts(bd, p, d, bd[p.r][p.c]);
      assert Behind(p, d, B - k) == Along(p, d, k - B);
    }
  }

  /**
    Entry i of the line through p is the cell i - BackLen steps from p and
    holds p's colour; p itself is entry BackLen.
   */
  lemma LineEntries(bd: Board, p: Pos, d: Dir)
    requires WellFormed(bd) && InRange(p.r, p.c) && Unit(d)
    ensures BackLen(bd, p, d) < |LineThrough(bd, p, d)|
    ensures forall i :: 0 <= i < |LineThrough(bd, p, d)| ==>
      LineThrough(bd, p, d)[i] == Along(p, d, i - BackLen(bd, p, d))
      && Holds(bd, LineThrough(bd, p, d)[i], bd[p.r][p.c])
  {
    var color := bd[p.r][p.c];
    var B := BackLen(bd, p, d);
    var s := LineStart(bd, p, d, color);
    forall k | 0 <= k < B + 1
      ensures Holds(bd, Along(s, d, k), color)
    {
      StartRunHolds(bd, p, d, k);
    }
    RayAtLeast(bd, s, d, color, B + 1);
    RayFacts(bd, s, d, color);
    forall i | 0 <= i < |LineThrough(bd, p, d)|
      ensures LineThrough(bd, p, d)[i] == Along(p, d, i - B)
    {
      AlongCompose(p, d, -B, i);
    }
  }

  /** The cell just behind the backward end of the line through p does not hold p's colour. */
  lemma LineBackEnd(bd: Board, p: Pos, d: Dir)
    requires WellFormed(bd) && InRange(p.r, p.c) && Unit(d)
    ensures !Holds(bd, Along(p, d, -BackLen(bd, p, d) - 1), bd[p.r][p.c])
  {
    BackFacts(bd, p, d, bd[p.r][p.c]);
  }

  /** The cell just beyond the forward end of the line through p does not hold p's colour. */
  lemma LineFrontEnd(bd: Board, p: Pos, d: Dir)
    requires WellFormed(bd) && InRange(p.r, p.c) && Unit(d)
    ensures !Holds(bd, Along(p, d, |LineThrough(bd, p, d)| - BackLen(bd, p, d)), bd[p.r][p.c])
  {
    var color := bd[p.r][p.c];
    var s := LineStart(bd, p, d, color);
    RayFacts(bd, s, d, color);
    AlongCompose(p, d, -BackLen(bd, p, d), |LineThrough(bd, p, d)|);
  }

  /** The line through p along d has at least five cells exactly when some five-cell segment through p along d is solid. */
  lemma LineLongIffSolid(bd: Board, p: Pos, d: Dir)
    requires WellFormed(bd) && InRange(p.r, p.c) && Unit(d)
    ensures |LineThrough(bd, p, d)| >= 5 <==>
      exists a, b :: a <= 0 <= b && b - a >= 4 && Solid(bd, p, d, a, b, bd[p.r][p.c])
  {
    var color := bd[p.r][p.c];
    var B := BackLen(bd, p, d);
    var line := LineThrough(bd, p, d);
    LineEntries(bd, p, d);
    if |line| >= 5 {
      forall k | -B <= k <= |line| - 1 - B
        ensures Holds(bd, Along(p, d, k), color)
      {
        assert line[k + B] == Along(p, d, k);
      }
      assert Solid(bd, p, d, -B, |line| - 1 - B, color);
    }
    if exists a, b :: a <= 0 <= b && b - a >= 4 && Solid(bd, p, d, a, b, color) {
      var a, b :| a <= 0 <= b && b - a >= 4 && Solid(bd, p, d, a, b, color);
      forall k | 1 <= k <= -a
        ensures Holds(bd, Behind(p, d, k), color)
      {
      }
      BackAtLeast(bd, p, d, color, -a);
      var s := LineStart(bd, p, d, color);
      forall k | 0 <= k < B + b + 1
        ensures Holds(bd, Along(s, d, k), color)
      {
        if k <= B {
          StartRunHolds(bd, p, d, k);
        } else {
          AlongCompose(p, d, -B, k);
        }
      }
      RayAtLeast(bd, s, d, color, B + b + 1);
    }
  }

  /** The first long line from index i on: a win exactly when some line from i on has five or more cells, and then the first such line. */
  lemma {:induction false} FirstLongFacts(lines: seq<seq<Pos>>, i: nat)
    ensures FirstLong(lines, i).Win? <==> exists j :: i <= j < |lines| && |lines[j]| >= 5
    ensures FirstLong(lines, i).Win? ==>
      exists j :: i <= j < |lines| && |lines[j]| >= 5 && FirstLong(lines, i).line == lines[j]
        && forall j' :: i <= j' < j ==> |lines[j']| < 5
    decreases |lines| - i
  {
    if i < |lines| {
      FirstLongFacts(lines, i + 1);
    }
  }

  /** Every direction whose line through p has five or more cells holds a solid five-cell segment through p. */
  lemma LongLineSolid(bd: Board, p: Pos, j: int)
    requires WellFormed(bd) && InRange(p.r, p.c) && 0 <= j < |Dirs|
    requires |LineThrough(bd, p, Dirs[j])| >= 5
    ensures exists a, b :: a <= 0 <= b && b - a >= 4 && Solid(bd, p, Dirs[j], a, b, bd[p.r][p.c])
  {
    LineLongIffSolid(bd, p, Dirs[j]);
  }

  /** A win reported by `computeWin` is a run of five through the played cell. */
  lemma WinImpliesRun(bd: Board, r: int, c: int)
    requires WellFormed(bd) && InRange(r, c)
    requires WinOf(bd, r, c).Win?
    ensures RunOfFive(bd, r, c)
  {
    var p := Pos(r, c);
    var ls := Lines(bd, p);
    FirstLongFacts(ls, 0);
    var j :| 0 <= j < |ls| && |ls[j]| >= 5;
    LongLineSolid(bd, p, j);
    var a, b :| a <= 0 <= b && b - a >= 4 && Solid(bd, p, Dirs[j], a, b, bd[r][c]);
  }

  /** A run of five through the played cell makes `computeWin` report a win. */
  lemma RunImpliesWin(bd: Board, r: int, c: int)
    requires WellFormed(bd) && InRange(r, c)
    requires RunOfFive(bd, r, c)
    ensures WinOf(bd, r, c).Win?
  {
    var p := Pos(r, c);
    var j, a, b :| 0 <= j < |Dirs| && a <= 0 <= b && b - a >= 4
      && Solid(bd, p, Dirs[j], a, b, bd[r][c]);
    LineLongIffSolid(bd, p, Dirs[j]);
    var ls := Lines(bd, p);
    assert |ls[j]| >= 5;
    FirstLongFacts(ls, 0);
  }

  /** `computeWin` reports a win exactly when five or more cells in a row, through the played cell, hold its colour. */
  lemma WinIffRunOfFive(bd: Board, r: int, c: int)
    requires WellFormed(bd) && InRange(r, c)
    ensures WinOf(bd, r, c).Win? <==> RunOfFive(bd, r, c)
  {
    if WinOf(bd, r, c).Win? {
      WinImpliesRun(bd, r, c);
    }
    if RunOfFive(bd, r, c) {
      RunImpliesWin(bd, r, c);
    }
  }

  /** The line through p along d is a maximal run of p's colour, containing p, one d-step apart. */
  lemma LineIsRun(bd: Board, p: Pos, d: Dir)
    requires WellFormed(bd) && InRange(p.r, p.c) && Unit(d)
    ensures IsRun(bd, LineThrough(bd, p, d), d, bd[p.r][p.c])
    ensures p in LineThrough(bd, p, d)
  {
    var B := BackLen(bd, p, d);
    var line := LineThrough(bd, p, d);
    LineEntries(bd, p, d);
    LineBackEnd(bd, p, d);
    LineFrontEnd(bd, p, d);
    AlongStep(p, d, 0);
    assert line[B] == p;
    forall j | 0 <= j < |line| - 1
      ensures line[j + 1] == Next(line[j], d)
    {
      AlongStep(p, d, j - B);
    }
    AlongStep(p, d, |line| - 1 - B);
    AlongStep(p, d, -B);
  }

  /** A reported line is the line of some direction, the first in scan order with five or more cells. */
  lemma WinLineIsFirstLong(bd: Board, r: int, c: int, line: seq<Pos>)
    requires WellFormed(bd) && InRange(r, c)
    requires WinOf(bd, r, c) == Win(line)
    ensures exists i ::
      && 0 <= i < |Dirs| && line == Lines(bd, Pos(r, c))[i] && |line| >= 5
      && (forall i' :: 0 <= i' < i ==> |Lines(bd, Pos(r, c))[i']| < 5)
  {
    var ls := Lines(bd, Pos(r, c));
    FirstLongFacts(ls, 0);
  }
  /**
    When `computeWin` reports a win, the line has at least five cells,
    contains the played cell, and is a maximal run of the played colour
    along one of the four directions, ordered from its backward end.
   */
  lemma WinLineShape(bd: Board, r: int, c: int, line: seq<Pos>)
    requires WellFormed(bd) && InRange(r, c)
    requires WinOf(bd, r, c) == Win(line)
    ensures |line| >= 5
    ensures Pos(r, c) in line
    ensures exists i :: 0 <= i < |Dirs| && IsRun(bd, line, Dirs[i], bd[r][c])
  {
    DirsUnit();
    WinLineIsFirstLong(bd, r, c, line);
    var i :| 0 <= i < |Dirs| && line == Lines(bd, Pos(r, c))[i] && |line| >= 5;
    assert line == LineThrough(bd, Pos(r, c), Dirs[i]);
    LineIsRun(bd, Pos(r, c), Dirs[i]);
  }
  /** One step forward from a cell of the run leaves the run's backward end where it was. */
  lemma LineStartStep(bd: Board, q: Pos, d: Dir, color: int)
    requires WellFormed(bd) && Unit(d) && Holds(bd, q, color)
    ensures LineStart(bd, Next(q, d), d, color) == LineStart(bd, q, d, color)
  {
    var B := BackSteps(bd, q, d, color);
    AlongStep(q, d, 0);
    assert Next(Next(q, d), Back(d)) == q;
    assert BackSteps(bd, Next(q, d), d, color) == B + 1;
    AlongStep(q, d, -B - 1);
  }

  /** Forward walk: the cells from p onward along d while they hold `color`. */
  method WalkForward(bd: Board, p: Pos, d: Dir, color: int) returns (cells: seq<Pos>)
    requires WellFormed(bd) && Unit(d)
    ensures cells == Ray(bd, p, d, color)
  {
    cells := [];
    var q := p;
    while InRange(q.r, q.c) && bd[q.r][q.c] == color
      invariant cells + Ray(bd, q, d, color) == Ray(bd, p, d, color)
      decreases EdgeDistance(q, d)
    {
      assert Ray(bd, q, d, color) == [q] + Ray(bd, Next(q, d), d, color);
      cells := cells + [q];
      q := Next(q, d);
    }
  }

  /** Backward walk: prepend the cells behind p while they hold `color`, completing the run from its backward end. */
  method WalkBack(bd: Board, p: Pos, d: Dir, color: int, ray: seq<Pos>) returns (cells: seq<Pos>)
    requires WellFormed(bd) && Unit(d)
    requires ray == Ray(bd, p, d, color)
    ensures cells == Ray(bd, LineStart(bd, p, d, color), d, color)
  {
    cells := ray;
    var b := Back(d);
    var q := Next(p, b);
    AlongStep(p, d, 0);
    while InRange(q.r, q.c) && bd[q.r][q.c] == color
      invariant cells == Ray(bd, Next(q, d), d, color)
      invariant LineStart(bd, Next(q, d), d, color) == LineStart(bd, p, d, color)
      decreases EdgeDistance(q, b)
    {
      AlongStep(q, d, 0);
      LineStartStep(bd, q, d, color);
      cells := [q] + cells;
      q := Next(q, b);
    }
    AlongStep(Next(q, d), d, 0);
  }
  /**
    Loop implementation of `computeWin`: per direction, start from the
    played cell, walk forward appending cells, then backward prepending
    them, and return the first line of five or more.
   */
  method ComputeWin(bd: Board, r: int, c: int) returns (res: WinResult)
    requires WellFormed(bd) && InRange(r, c)
    ensures res == WinOf(bd, r, c)
    ensures res.Win? <==> RunOfFive(bd, r, c)
  {
    var color := bd[r][c];
    var p := Pos(r, c);
    ghost var ls := Lines(bd, p);
    WinIffRunOfFive(bd, r, c);
    DirsUnit();
    var i := 0;
    while i < |Dirs|
      invariant 0 <= i <= |Dirs|
      invariant FirstLong(ls, i) == WinOf(bd, r, c)
    {
      var d := Dirs[i];
      var ahead := WalkForward(bd, Next(p, d), d, color);
      assert Ray(bd, p, d, color) == [p] + ahead;
      var cells := WalkBack(bd, p, d, color, [p] + ahead);
      assert cells == ls[i];
      if |cells| >= 5 {
        return Win(cells);
      }
      i := i + 1;
    }
    return NoWin;
  }
}
