/** Day 6: a guard walks a grid from `^`, facing up, turning right in front
    of `#`, until they step off an edge; the walk gives up with "loop" when
    its record of corners looks periodic. Part two counts the single
    obstacles that make the walk give up. */
module Day6 {
  import opened Text

  datatype Coord = Coord(x: int, y: int)

  /** The variants in declaration order, which is their `usize` value. */
  datatype Direction = Up | Right | Down | Left {
    function Index(): nat {
      match this
      case Up => 0
      case Right => 1
      case Down => 2
      case Left => 3
    }
  }

  const DirectionCount: nat := 4

  /** `Direction::from_usize`: `None` for 4 or more (the program panics). */
  function FromUsize(v: nat): (r: Option<Direction>)
    ensures r.Some? <==> v < DirectionCount
    ensures r.Some? ==> r.value.Index() == v
  {
    if v == 0 then Some(Up)
    else if v == 1 then Some(Right)
    else if v == 2 then Some(Down)
    else if v == 3 then Some(Left)
    else None
  }

  /** A right turn: the next variant, modulo the variant count. */
  function Turn(d: Direction): Direction {
    FromUsize((d.Index() + 1) % DirectionCount).value
  }

  /** Turning goes Up, Right, Down, Left and back to Up. */
  lemma TurnCycle(d: Direction)
    ensures Turn(Up) == Right && Turn(Right) == Down && Turn(Down) == Left && Turn(Left) == Up
    ensures Turn(Turn(Turn(Turn(d)))) == d
    ensures Turn(d) != d
  {
  }

  /** `Coordinate::move_direction`: up decreases the row, left the column. */
  function Move(c: Coord, d: Direction): Coord {
    match d
    case Up => Coord(c.x - 1, c.y)
    case Right => Coord(c.x, c.y + 1)
    case Down => Coord(c.x + 1, c.y)
    case Left => Coord(c.x, c.y - 1)
  }

  predicate InGrid(grid: seq<seq<char>>, c: Coord) {
    0 <= c.x < |grid| && 0 <= c.y < |grid[c.x]|
  }

  /** A grid the walk can run on: rectangular with at least one column. */
  predicate Shaped(grid: seq<seq<char>>) {
    Rectangular(grid) && |grid| > 0 && |grid[0]| > 0
  }

  /** `get_immediately_adjacent_edges`, in the order the checks run. */
  function AdjacentEdges(grid: seq<seq<char>>, c: Coord): (r: seq<Direction>)
    requires Shaped(grid)
    ensures Up in r <==> c.x == 0
    ensures Down in r <==> c.x == |grid| - 1
    ensures Left in r <==> c.y == 0
    ensures Right in r <==> c.y == |grid[0]| - 1
  {
    (if c.x == 0 then [Up] else [])
    + (if c.x == |grid| - 1 then [Down] else [])
    + (if c.y == 0 then [Left] else [])
    + (if c.y == |grid[0]| - 1 then [Right] else [])
  }

  /** `is_able_to_exit`: the guard stands at the border they face. */
  predicate CanExit(grid: seq<seq<char>>, c: Coord, d: Direction)
    requires Shaped(grid)
  {
    (d == Up && c.x == 0) || (d == Down && c.x == |grid| - 1)
    || (d == Left && c.y == 0) || (d == Right && c.y == |grid[0]| - 1)
  }

  /** The exit test is membership of the direction among the adjacent edges. */
  lemma CanExitIsAdjacentEdge(grid: seq<seq<char>>, c: Coord, d: Direction)
    requires Shaped(grid)
    ensures CanExit(grid, c, d) <==> d in AdjacentEdges(grid, c)
  {
  }

  /** The guard can leave exactly when the step ahead crosses the border they stand on. */
  lemma CanExitIff(grid: seq<seq<char>>, c: Coord, d: Direction)
    requires Shaped(grid) && InGrid(grid, c)
    ensures CanExit(grid, c, d) <==> !InGrid(grid, Move(c, d))
  {
  }

  /** When the guard cannot leave, the cell ahead is in the grid, so looking
      at it and moving to it stay inside the grid (no `usize` underflow). */
  lemma AheadInGrid(grid: seq<seq<char>>, c: Coord, d: Direction)
    requires Shaped(grid) && InGrid(grid, c) && !CanExit(grid, c, d)
    ensures InGrid(grid, Move(c, d))
  {
    CanExitIff(grid, c, d);
  }

  /** `is_facing_obsitcle`: the cell ahead holds `#`. */
  predicate FacingObstacle(grid: seq<seq<char>>, c: Coord, d: Direction)
    requires InGrid(grid, Move(c, d))
  {
    var a := Move(c, d);
    grid[a.x][a.y] == '#'
  }

  /** `DirectionalCoordinate`. */
  datatype Corner = Corner(coordinate: Coord, direction: Direction)

  /** The loop heuristic: an even number of corners, more than four, and one
      of the first four differs from the one `len/2 - 1` places later. */
  predicate LoopSuspected(corners: seq<Corner>) {
    |corners| % 2 == 0 && |corners| > 4
    && var h := |corners| / 2 - 1;
    (corners[0] != corners[h] || corners[1] != corners[h + 1] || corners[2] != corners[h + 2] || corners[3] != corners[h + 3])
  }

  /** The `for i in 0..=3` comparison of the corner record. */
  method CornersSuspicious(corners: seq<Corner>) returns (suspicious: bool)
    ensures suspicious <==> LoopSuspected(corners)
  {
    if |corners| % 2 == 0 && |corners| > 4 {
      for i := 0 to 4
        invariant forall k :: 0 <= k < i ==> corners[k] == corners[k + |corners| / 2 - 1]
      {
        if corners[i] == corners[i + |corners| / 2 - 1] {
          continue;
        }
        return true;
      }
    }
    return false;
  }

  /** How a traversal ends. `NoStart` is the abort on a grid without `^`;
      `OutOfFuel` (the walk has not ended within the given number of loop
      iterations) belongs to the model only. */
  datatype Outcome = NoStart | Exited(visited: set<Coord>) | Looped | OutOfFuel

  /** The variables of the traversal loop. */
  datatype State = State(pos: Coord, dir: Direction, visited: set<Coord>, corners: seq<Corner>)

  datatype StepResult = Continue(next: State) | Finished(outcome: Outcome)

  /** One iteration of the traversal loop: note the cell, leave if facing an
      adjacent edge, otherwise turn in front of `#` (recording a corner when
      the cell was seen before, and giving up if the record looks periodic)
      or step ahead. */
  function Step(grid: seq<seq<char>>, st: State): (r: StepResult)
    requires Shaped(grid) && InGrid(grid, st.pos)
    ensures r.Continue? ==> InGrid(grid, r.next.pos)
    ensures r.Finished? ==> r.outcome == Looped || r.outcome == Exited(st.visited + {st.pos})
  {
    var been := st.pos in st.visited;
    var visited' := st.visited + {st.pos};
    if CanExit(grid, st.pos, st.dir) then Finished(Exited(visited'))
    else
      AheadInGrid(grid, st.pos, st.dir);
      if FacingObstacle(grid, st.pos, st.dir) then
        var dir' := Turn(st.dir);
        var corners' := if been then st.corners + [Corner(st.pos, dir')] else st.corners;
        if LoopSuspected(corners') then Finished(Looped)
        else Continue(State(st.pos, dir', visited', corners'))
      else Continue(State(Move(st.pos, st.dir), st.dir, visited', st.corners))
  }

  /** The traversal loop from a given state, for at most `fuel` iterations. */
  function Walk(grid: seq<seq<char>>, st: State, fuel: nat): Outcome
    requires Shaped(grid) && InGrid(grid, st.pos)
    decreases fuel
  {
    if fuel == 0 then OutOfFuel
    else match Step(grid, st)
      case Finished(o) => o
      case Continue(next) => Walk(grid, next, fuel - 1)
  }

  /** The first `^` in row-major order among the first `m` rows. */
  function StartIn(grid: seq<seq<char>>, m: nat): Option<Coord>
    requires m <= |grid|
  {
    if m == 0 then None
    else match StartIn(grid, m - 1)
      case Some(c) => Some(c)
      case None => StartInRow(grid, m - 1, |grid[m - 1]|)
  }

  function StartInRow(grid: seq<seq<char>>, x: nat, n: nat): Option<Coord>
    requires x < |grid| && n <= |grid[x]|
  {
    if n == 0 then None
    else match StartInRow(grid, x, n - 1)
      case Some(c) => Some(c)
      case None => if grid[x][n - 1] == '^' then Some(Coord(x, n - 1)) else None
  }

  /** One cell comes before another in row-major order. */
  predicate Before(a: Coord, b: Coord) {
    a.x < b.x || (a.x == b.x && a.y < b.y)
  }

  lemma {:induction false} StartInRowSpec(grid: seq<seq<char>>, x: nat, n: nat)
    requires x < |grid| && n <= |grid[x]|
    ensures StartInRow(grid, x, n).Some? ==> var c := StartInRow(grid, x, n).value;
      c.x == x && 0 <= c.y < n && grid[x][c.y] == '^' && forall y :: 0 <= y < c.y ==> grid[x][y] != '^'
    ensures StartInRow(grid, x, n).None? <==> forall y :: 0 <= y < n ==> grid[x][y] != '^'
  {
    if n > 0 {
      StartInRowSpec(grid, x, n - 1);
    }
  }

  /** The start is the first `^` in row-major order, or `None` if there is none. */
  lemma {:induction false} StartSpec(grid: seq<seq<char>>, m: nat)
    requires m <= |grid|
    ensures StartIn(grid, m).Some? ==> var c := StartIn(grid, m).value;
      InGrid(grid, c) && c.x < m && grid[c.x][c.y] == '^'
      && forall d :: InGrid(grid, d) && Before(d, c) ==> grid[d.x][d.y] != '^'
    ensures StartIn(grid, m).None? <==> forall d :: InGrid(grid, d) && d.x < m ==> grid[d.x][d.y] != '^'
  {
    if m > 0 {
      StartSpec(grid, m - 1);
      StartInRowSpec(grid, m - 1, |grid[m - 1]|);
    }
  }

  function Start(grid: seq<seq<char>>): Option<Coord> {
    StartIn(grid, |grid|)
  }

  lemma StartInGrid(grid: seq<seq<char>>)
    ensures Start(grid).Some? ==> InGrid(grid, Start(grid).value) && grid[Start(grid).value.x][Start(grid).value.y] == '^'
  {
    StartSpec(grid, |grid|);
  }

  /** `get_starting_position`: row by row, the first `^`. */
  method GetStartingPosition(grid: seq<seq<char>>) returns (r: Option<Coord>)
    ensures r == Start(grid)
  {
    for x := 0 to |grid|
      invariant StartIn(grid, x).None?
    {
      for y := 0 to |grid[x]|
        invariant StartInRow(grid, x, y).None?
      {
        if grid[x][y] == '^' {
          StartInAfterRow(grid, |grid|, Coord(x, y));
          return Some(Coord(x, y));
        }
      }
    }
    return None;
  }

  lemma {:induction false} StartInAfterRow(grid: seq<seq<char>>, m: nat, c: Coord)
    requires 0 <= c.x < m <= |grid| && 0 <= c.y < |grid[c.x]|
    requires StartIn(grid, c.x).None? && StartInRow(grid, c.x, c.y).None? && grid[c.x][c.y] == '^'
    ensures StartIn(grid, m) == Some(c)
    decreases m
  {
    if m - 1 > c.x {
      StartInAfterRow(grid, m - 1, c);
    } else {
      StartInRowFound(grid, c.x, |grid[c.x]|, c.y);
    }
  }

  lemma {:induction false} StartInRowFound(grid: seq<seq<char>>, x: nat, n: nat, y: nat)
    requires x < |grid| && y < n <= |grid[x]|
    requires StartInRow(grid, x, y).None? && grid[x][y] == '^'
    ensures StartInRow(grid, x, n) == Some(Coord(x, y))
    decreases n
  {
    if n - 1 > y {
      StartInRowFound(grid, x, n - 1, y);
    }
  }

  /** `traverse_map_get_unique_coordinates`, with at most `fuel` loop iterations. */
  function Traverse(grid: seq<seq<char>>, fuel: nat): Outcome
    requires Shaped(grid)
  {
    match Start(grid)
    case None => NoStart
    case Some(s) =>
      StartInGrid(grid);
      if CanExit(grid, s, Up) then Exited({}) else Walk(grid, State(s, Up, {}, []), fuel)
  }

  /** The body of the traversal loop. */
  method Advance(grid: seq<seq<char>>, pos: Coord, dir: Direction, visited: set<Coord>, corners: seq<Corner>) returns (r: StepResult)
    requires Shaped(grid) && InGrid(grid, pos)
    ensures r == Step(grid, State(pos, dir, visited, corners))
  {
    var haveWeBeenHereBefore := pos in visited;
    var visited := visited + {pos};
    var canExit := CanExit(grid, pos, dir);
    if canExit {
      return Finished(Exited(visited));
    }
    AheadInGrid(grid, pos, dir);
    var canProceed := !FacingObstacle(grid, pos, dir);
    if !canProceed {
      var dir := FromUsize((dir.Index() + 1) % DirectionCount).value;
      var corners := corners;
      if haveWeBeenHereBefore {
        corners := corners + [Corner(pos, dir)];
      }
      var suspicious := CornersSuspicious(corners);
      if suspicious {
        return Finished(Looped);
      }
      return Continue(State(pos, dir, visited, corners));
    }
    return Continue(State(Move(pos, dir), dir, visited, corners));
  }

  /** The traversal loop: the start, facing up, and the loop body until it finishes. */
  method TraverseMap(grid: seq<seq<char>>, fuel: nat) returns (r: Outcome)
    requires Shaped(grid)
    ensures r == Traverse(grid, fuel)
  {
    var start := GetStartingPosition(grid);
    if start.None? {
      return NoStart;
    }
    StartInGrid(grid);
    var st := State(start.value, Up, {}, []);
    var canExit := CanExit(grid, st.pos, st.dir);
    if canExit {
      return Exited({});
    }
    var steps: nat := 0;
    while true
      invariant InGrid(grid, st.pos) && steps <= fuel
      invariant Walk(grid, st, fuel - steps) == Traverse(grid, fuel)
      decreases fuel - steps
    {
      if steps == fuel {
        return OutOfFuel;
      }
      var step := Advance(grid, st.pos, st.dir, st.visited, st.corners);
      if step.Finished? {
        return step.outcome;
      }
      st := step.next;
      steps := steps + 1;
    }
  }

  /** The cells the guard stands on are in the grid and never `#`. */
  predicate Sound(grid: seq<seq<char>>, visited: set<Coord>) {
    forall c :: c in visited ==> InGrid(grid, c) && grid[c.x][c.y] != '#'
  }

  /** A state on a free cell of the grid, with a sound record. */
  predicate Good(grid: seq<seq<char>>, st: State) {
    InGrid(grid, st.pos) && grid[st.pos.x][st.pos.y] != '#' && Sound(grid, st.visited)
  }

  /** A step keeps the state good and the record of visited cells growing. */
  lemma StepGood(grid: seq<seq<char>>, st: State)
    requires Shaped(grid) && Good(grid, st)
    ensures Step(grid, st).Continue? ==> Good(grid, Step(grid, st).next) && st.visited + {st.pos} <= Step(grid, st).next.visited
    ensures Step(grid, st).Finished? && Step(grid, st).outcome.Exited? ==> Sound(grid, Step(grid, st).outcome.visited)
  {
    if !CanExit(grid, st.pos, st.dir) {
      AheadInGrid(grid, st.pos, st.dir);
    }
  }

  lemma {:induction false} WalkSound(grid: seq<seq<char>>, st: State, fuel: nat)
    requires Shaped(grid) && Good(grid, st)
    ensures Walk(grid, st, fuel).Exited? ==> Sound(grid, Walk(grid, st, fuel).visited)
    ensures Walk(grid, st, fuel).Exited? ==> st.visited + {st.pos} <= Walk(grid, st, fuel).visited
    decreases fuel
  {
    if fuel > 0 {
      StepGood(grid, st);
      if Step(grid, st).Continue? {
        WalkSound(grid, Step(grid, st).next, fuel - 1);
      }
    }
  }

  /** Every cell of a finished walk is in the grid and not `#`. The set is
      empty when the guard can leave from the start, and otherwise holds the start. */
  lemma TraverseSound(grid: seq<seq<char>>, fuel: nat)
    requires Shaped(grid)
    ensures Traverse(grid, fuel).Exited? ==> Sound(grid, Traverse(grid, fuel).visited)
    ensures Start(grid).Some? && CanExit(grid, Start(grid).value, Up) ==> Traverse(grid, fuel) == Exited({})
    ensures Start(grid).Some? && !CanExit(grid, Start(grid).value, Up) && Traverse(grid, fuel).Exited? ==>
      Start(grid).value in Traverse(grid, fuel).visited
  {
    StartSpec(grid, |grid|);
    if Start(grid).Some? {
      var s := Start(grid).value;
      if !CanExit(grid, s, Up) {
        WalkSound(grid, State(s, Up, {}, []), fuel);
      }
    }
  }

  /** `cs` continues the corner record `corners`. */
  predicate Extends(corners: seq<Corner>, cs: seq<Corner>) {
    |cs| >= |corners| && cs[..|corners|] == corners
  }

  /** A step only ever appends to the corner record. */
  lemma StepExtends(grid: seq<seq<char>>, st: State)
    requires Shaped(grid) && InGrid(grid, st.pos)
    ensures Step(grid, st).Continue? ==> Extends(st.corners, Step(grid, st).next.corners)
    ensures Step(grid, st) == Finished(Looped) ==>
      exists cs :: Extends(st.corners, cs) && LoopSuspected(cs)
  {
    if !CanExit(grid, st.pos, st.dir) {
      AheadInGrid(grid, st.pos, st.dir);
    }
    var cs := if st.pos in st.visited then st.corners + [Corner(st.pos, Turn(st.dir))] else st.corners;
    assert Extends(st.corners, cs);
  }

  /** The walk reports a loop only right after a turn that leaves the
      corner record, an extension of the one it started with, in the
      suspicious shape. */
  lemma {:induction false} WalkLoopedOnlyOnSuspicion(grid: seq<seq<char>>, st: State, fuel: nat)
    requires Shaped(grid) && InGrid(grid, st.pos)
    requires Walk(grid, st, fuel) == Looped
    ensures exists cs :: Extends(st.corners, cs) && LoopSuspected(cs)
    decreases fuel
  {
    StepExtends(grid, st);
    if Step(grid, st).Continue? {
      var next := Step(grid, st).next;
      WalkLoopedOnlyOnSuspicion(grid, next, fuel - 1);
      var cs :| Extends(next.corners, cs) && LoopSuspected(cs);
      assert cs[..|st.corners|] == next.corners[..|st.corners|];
      assert Extends(st.corners, cs);
    }
  }

  /** One cell of the grid overwritten with `#`. */
  function PlaceObstacle(grid: seq<seq<char>>, c: Coord): (m: seq<seq<char>>)
    requires InGrid(grid, c)
    ensures |m| == |grid| && forall x :: 0 <= x < |grid| ==> |m[x]| == |grid[x]|
    ensures forall d :: InGrid(grid, d) ==> m[d.x][d.y] == if d == c then '#' else grid[d.x][d.y]
  {
    grid[c.x := grid[c.x][c.y := '#']]
  }

  /** Overwriting a cell other than the start leaves the start where it was. */
  lemma PlaceObstacleKeepsStart(grid: seq<seq<char>>, c: Coord)
    requires InGrid(grid, c) && grid[c.x][c.y] != '^'
    ensures Start(PlaceObstacle(grid, c)) == Start(grid)
  {
    var m := PlaceObstacle(grid, c);
    StartSpec(grid, |grid|);
    StartSpec(m, |m|);
    if Start(grid).Some? {
      var s := Start(grid).value;
      assert m[s.x][s.y] == '^';
    } else {
      assert Start(m).None? by {
        forall d | InGrid(m, d) && d.x < |m| ensures m[d.x][d.y] != '^' {
          assert InGrid(grid, d);
        }
      }
    }
  }

  /** The cell is a trial position: visited by the original walk and not the start. */
  predicate Candidate(grid: seq<seq<char>>, visited: set<Coord>, c: Coord)
    requires InGrid(grid, c)
  {
    grid[c.x][c.y] != '^' && c in visited
  }

  /** Whether the trial at cell `c` reports a loop. */
  predicate Blocks(grid: seq<seq<char>>, visited: set<Coord>, fuel: nat, c: Coord)
    requires Shaped(grid) && InGrid(grid, c)
  {
    Candidate(grid, visited, c) && Traverse(PlaceObstacle(grid, c), fuel) == Looped
  }

  /** The successful trials among the first `n` cells of row `x`, and among the first `m` rows. */
  function RowObstacles(grid: seq<seq<char>>, visited: set<Coord>, fuel: nat, x: nat, n: nat): nat
    requires Shaped(grid) && x < |grid| && n <= |grid[x]|
  {
    if n == 0 then 0
    else RowObstacles(grid, visited, fuel, x, n - 1) + (if Blocks(grid, visited, fuel, Coord(x, n - 1)) then 1 else 0)
  }

  function ObstacleCount(grid: seq<seq<char>>, visited: set<Coord>, fuel: nat, m: nat): nat
    requires Shaped(grid) && m <= |grid|
  {
    if m == 0 then 0
    else ObstacleCount(grid, visited, fuel, m - 1) + RowObstacles(grid, visited, fuel, m - 1, |grid[m - 1]|)
  }

  /** `get_obstacle_count_that_cause_loop`, sequentially: every visited cell
      other than the start gets an obstacle in a copy of the grid, and the
      trials that report a loop are counted (`OBSTACLE_COUNT`). */
  method CountLoopingObstacles(grid: seq<seq<char>>, visited: set<Coord>, fuel: nat) returns (count: nat)
    requires Shaped(grid)
    ensures count == ObstacleCount(grid, visited, fuel, |grid|)
  {
    count := 0;
    for x := 0 to |grid|
      invariant count == ObstacleCount(grid, visited, fuel, x)
    {
      for y := 0 to |grid[x]|
        invariant count == ObstacleCount(grid, visited, fuel, x) + RowObstacles(grid, visited, fuel, x, y)
      {
        if grid[x][y] == '^' || Coord(x, y) !in visited {
          continue;
        }
        var localMap := PlaceObstacle(grid, Coord(x, y));
        var outcome := TraverseMap(localMap, fuel);
        if outcome == Looped {
          count := count + 1;
        }
      }
    }
  }

  /** No trial succeeds at a cell outside the original walk, so an empty walk
      allows no obstacle. */
  lemma {:induction false} NoVisitedNoObstacles(grid: seq<seq<char>>, fuel: nat, m: nat)
    requires Shaped(grid) && m <= |grid|
    ensures ObstacleCount(grid, {}, fuel, m) == 0
  {
    if m > 0 {
      NoVisitedNoObstacles(grid, fuel, m - 1);
      NoVisitedRow(grid, fuel, m - 1, |grid[m - 1]|);
    }
  }

  lemma {:induction false} NoVisitedRow(grid: seq<seq<char>>, fuel: nat, x: nat, n: nat)
    requires Shaped(grid) && x < |grid| && n <= |grid[x]|
    ensures RowObstacles(grid, {}, fuel, x, n) == 0
  {
    if n > 0 {
      NoVisitedRow(grid, fuel, x, n - 1);
    }
  }

  /** The start cell is never a trial position. */
  lemma StartNeverTried(grid: seq<seq<char>>, visited: set<Coord>, fuel: nat)
    requires Shaped(grid) && Start(grid).Some?
    ensures InGrid(grid, Start(grid).value) && !Blocks(grid, visited, fuel, Start(grid).value)
  {
    StartSpec(grid, |grid|);
  }
}
