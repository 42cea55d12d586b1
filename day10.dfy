/** Day 10: a map of digit heights; a trail climbs by exactly one at every
    step up, down, left or right. A trailhead (height 0) scores the number of
    height-9 cells its trails reach, or, in part two, the number of trails. */
module Day10 {
  import opened Text

  datatype Coord = Coord(x: int, y: int)

  /** The links of a node, in the order the traversals look at them. */
  datatype Dir = Up | Down | Left | Right

  predicate InGrid(h: seq<seq<Height>>, c: Coord) {
    0 <= c.x < |h| && 0 <= c.y < |h[c.x]|
  }

  /** A height is a digit. */
  type Height = d: nat | d < 10

  /** All rows are equally long. The link pass indexes the row above and the
      row below each cell without a check, which only stays in range when
      neighbouring rows have the same length. */
  predicate LinksInRange(h: seq<seq<Height>>) {
    forall x :: 0 <= x < |h| ==> |h[x]| == |h[0]|
  }

  function Val(h: seq<seq<Height>>, c: Coord): Height
    requires InGrid(h, c)
  {
    h[c.x][c.y]
  }

  /** The cell one step away in direction `d`. */
  function Neighbour(c: Coord, d: Dir): Coord {
    match d
    case Up => Coord(c.x - 1, c.y)
    case Down => Coord(c.x + 1, c.y)
    case Left => Coord(c.x, c.y - 1)
    case Right => Coord(c.x, c.y + 1)
  }

  /** The link in direction `d`, as the node builder sets it. */
  function Link(h: seq<seq<Height>>, c: Coord, d: Dir): Option<Coord>
    requires InGrid(h, c)
  {
    match d
    case Up => if c.x > 0 then Some(Coord(c.x - 1, c.y)) else None
    case Down => if c.x < |h| - 1 then Some(Coord(c.x + 1, c.y)) else None
    case Left => if c.y > 0 then Some(Coord(c.x, c.y - 1)) else None
    case Right => if c.y < |h[c.x]| - 1 then Some(Coord(c.x, c.y + 1)) else None
  }

  /** A link exists exactly when the neighbour is on the map, and then it
      points to that neighbour. */
  lemma LinkSpec(h: seq<seq<Height>>, c: Coord, d: Dir)
    requires LinksInRange(h) && InGrid(h, c)
    ensures Link(h, c, d).Some? <==> InGrid(h, Neighbour(c, d))
    ensures Link(h, c, d).Some? ==> Link(h, c, d).value == Neighbour(c, d)
  {
  }

  /** The linked neighbour in direction `d` if it is exactly one higher. */
  function Climb(h: seq<seq<Height>>, c: Coord, d: Dir): (r: Option<Coord>)
    requires LinksInRange(h) && InGrid(h, c)
    ensures r.Some? ==> InGrid(h, r.value) && Val(h, r.value) == Val(h, c) + 1
  {
    var n := Link(h, c, d);
    if n.Some? && Val(h, n.value) == Val(h, c) + 1 then n else None
  }

  datatype Node = Node(val: nat, up: Option<Coord>, down: Option<Coord>, left: Option<Coord>, right: Option<Coord>)

  /** The node of cell (x, y) with all four links. */
  function NodeAt(h: seq<seq<Height>>, x: nat, y: nat): Node
    requires InGrid(h, Coord(x, y))
  {
    var c := Coord(x, y);
    Node(h[x][y], Link(h, c, Up), Link(h, c, Down), Link(h, c, Left), Link(h, c, Right))
  }

  /** The heights of an all-digit line. */
  function RowHeights(line: string): (r: seq<Height>)
    requires AllDigits(line)
    ensures |r| == |line| && forall y :: 0 <= y < |line| ==> r[y] == DigitValue(line[y])
  {
    seq(|line|, y requires 0 <= y < |line| => DigitValue(line[y]) as Height)
  }

  /** The map of an all-digit input: each row its line's heights. */
  function Heights(lines: seq<string>): (h: seq<seq<Height>>)
    requires forall x :: 0 <= x < |lines| ==> AllDigits(lines[x])
    ensures |h| == |lines| && forall x :: 0 <= x < |lines| ==> h[x] == RowHeights(lines[x])
  {
    seq(|lines|, x requires 0 <= x < |lines| => RowHeights(lines[x]))
  }

  /** The digits of the map; `None` for a character that is not a digit
      (the `unwrap` aborts). */
  method ReadHeights(lines: seq<string>) returns (r: Option<seq<seq<Height>>>)
    ensures r.Some? <==> forall x :: 0 <= x < |lines| ==> AllDigits(lines[x])
    ensures r.Some? ==> |r.value| == |lines|
    ensures r.Some? ==> forall x :: 0 <= x < |lines| ==> |r.value[x]| == |lines[x]|
    ensures r.Some? ==> forall x, y :: 0 <= x < |lines| && 0 <= y < |lines[x]| ==> r.value[x][y] == DigitValue(lines[x][y])
    ensures r.Some? ==> r.value == Heights(lines)
  {
    var h: seq<seq<Height>> := [];
    for x := 0 to |lines|
      invariant |h| == x
      invariant forall i :: 0 <= i < x ==> AllDigits(lines[i]) && |h[i]| == |lines[i]|
      invariant forall i, y :: 0 <= i < x && 0 <= y < |lines[i]| ==> h[i][y] == DigitValue(lines[i][y])
    {
      var row: seq<Height> := [];
      for y := 0 to |lines[x]|
        invariant |row| == y
        invariant forall j :: 0 <= j < y ==> IsDigit(lines[x][j]) && row[j] == DigitValue(lines[x][j])
      {
        if !IsDigit(lines[x][y]) {
          return None;
        }
        row := row + [DigitValue(lines[x][y])];
      }
      h := h + [row];
    }
    assert forall x :: 0 <= x < |lines| ==> h[x] == RowHeights(lines[x]);
    return Some(h);
  }

  /** `generate_nodes_from_file` on the map: one node per cell holding its
      height, then a second pass setting every node's four links. */
  method GenerateNodes(h: seq<seq<Height>>) returns (nodes: seq<seq<Node>>)
    requires LinksInRange(h)
    ensures |nodes| == |h|
    ensures forall x :: 0 <= x < |h| ==> |nodes[x]| == |h[x]|
    ensures forall x, y :: 0 <= x < |h| && 0 <= y < |h[x]| ==> nodes[x][y] == NodeAt(h, x, y)
  {
    nodes := [];
    for x := 0 to |h|
      invariant |nodes| == x
      invariant forall i :: 0 <= i < x ==> |nodes[i]| == |h[i]| && forall j :: 0 <= j < |h[i]| ==> nodes[i][j] == Node(h[i][j], None, None, None, None)
    {
      var row: seq<Node> := [];
      for y := 0 to |h[x]|
        invariant |row| == y && forall j :: 0 <= j < y ==> row[j] == Node(h[x][j], None, None, None, None)
      {
        row := row + [Node(h[x][y], None, None, None, None)];
      }
      nodes := nodes + [row];
    }
    for x := 0 to |h|
      invariant |nodes| == |h|
      invariant forall i :: 0 <= i < |h| ==> |nodes[i]| == |h[i]|
      invariant forall i, j :: 0 <= i < x && 0 <= j < |h[i]| ==> nodes[i][j] == NodeAt(h, i, j)
      invariant forall i, j :: x <= i < |h| && 0 <= j < |h[i]| ==> nodes[i][j] == Node(h[i][j], None, None, None, None)
    {
      for y := 0 to |h[x]|
        invariant |nodes| == |h|
        invariant forall i :: 0 <= i < |h| ==> |nodes[i]| == |h[i]|
        invariant forall i, j :: 0 <= i < x && 0 <= j < |h[i]| ==> nodes[i][j] == NodeAt(h, i, j)
        invariant forall j :: 0 <= j < y ==> nodes[x][j] == NodeAt(h, x, j)
        invariant forall j :: y <= j < |h[x]| ==> nodes[x][j] == Node(h[x][j], None, None, None, None)
        invariant forall i, j :: x < i < |h| && 0 <= j < |h[i]| ==> nodes[i][j] == Node(h[i][j], None, None, None, None)
      {
        var c := Coord(x, y);
        var node := nodes[x][y].(up := Link(h, c, Up), down := Link(h, c, Down));
        node := node.(right := Link(h, c, Right), left := Link(h, c, Left));
        nodes := nodes[x := nodes[x][y := node]];
      }
    }
  }

  /** The cells reached from `c` by climbing one at a time; a cell at the
      target height is reached but not climbed from. */
  function Reach(h: seq<seq<Height>>, c: Coord, target: nat): (r: set<Coord>)
    requires LinksInRange(h) && InGrid(h, c)
    ensures c in r
    ensures forall v :: v in r ==> InGrid(h, v)
    decreases 10 - Val(h, c)
  {
    if Val(h, c) == target then {c}
    else
      var up := match Climb(h, c, Up) case Some(n) => Reach(h, n, target) case None => {};
      var down := match Climb(h, c, Down) case Some(n) => Reach(h, n, target) case None => {};
      var left := match Climb(h, c, Left) case Some(n) => Reach(h, n, target) case None => {};
      var right := match Climb(h, c, Right) case Some(n) => Reach(h, n, target) case None => {};
      {c} + up + down + left + right
  }

  /** The cells of `s` at the target height. */
  function TargetsIn(h: seq<seq<Height>>, s: set<Coord>, target: nat): set<Coord> {
    set v | v in s && InGrid(h, v) && Val(h, v) == target
  }

  /** The number of trails from `c`: climbs ending at the first cell of the
      target height. */
  function Paths(h: seq<seq<Height>>, c: Coord, target: nat): nat
    requires LinksInRange(h) && InGrid(h, c)
    decreases 10 - Val(h, c)
  {
    if Val(h, c) == target then 1
    else
      var up := match Climb(h, c, Up) case Some(n) => Paths(h, n, target) case None => 0;
      var down := match Climb(h, c, Down) case Some(n) => Paths(h, n, target) case None => 0;
      var left := match Climb(h, c, Left) case Some(n) => Paths(h, n, target) case None => 0;
      var right := match Climb(h, c, Right) case Some(n) => Paths(h, n, target) case None => 0;
      up + down + left + right
  }

  /** Five to the power of ten minus the height. */
  function HeightWeight(v: Height): (r: nat)
    ensures r >= 1
  {
    [9765625, 1953125, 390625, 78125, 15625, 3125, 625, 125, 25, 5][v]
  }

  /** A climb weighs a fifth of the cell it climbs from. */
  lemma ClimbWeight(v: Height)
    requires v < 9
    ensures 5 * HeightWeight(v + 1) == HeightWeight(v)
  {
  }

  /** The sum of the trail counts of the queued cells. */
  function QueuedPaths(h: seq<seq<Height>>, q: seq<Coord>, target: nat): nat
    requires LinksInRange(h) && forall k :: 0 <= k < |q| ==> InGrid(h, q[k])
  {
    if q == [] then 0 else Paths(h, q[0], target) + QueuedPaths(h, q[1..], target)
  }

  /** A measure that a step of either traversal lowers: a queued cell weighs
      more than four cells one higher. */
  function Weight(h: seq<seq<Height>>, q: seq<Coord>): nat
    requires forall k :: 0 <= k < |q| ==> InGrid(h, q[k])
  {
    if q == [] then 0 else HeightWeight(Val(h, q[0])) + Weight(h, q[1..])
  }

  /** The queue after pushing the climb in direction `d`, if any, at the front. */
  function Pushed(h: seq<seq<Height>>, c: Coord, d: Dir, q: seq<Coord>): seq<Coord>
    requires LinksInRange(h) && InGrid(h, c)
  {
    match Climb(h, c, d) case Some(n) => [n] + q case None => q
  }

  /** The queue after the four pushes of one expansion: up, down, left, right. */
  function Expanded(h: seq<seq<Height>>, c: Coord, q: seq<Coord>): seq<Coord>
    requires LinksInRange(h) && InGrid(h, c)
  {
    Pushed(h, c, Right, Pushed(h, c, Left, Pushed(h, c, Down, Pushed(h, c, Up, q))))
  }

  /** Pushes the climb in direction `d`, if there is one, at the front of the queue. */
  method PushClimb(h: seq<seq<Height>>, c: Coord, d: Dir, queue: seq<Coord>) returns (r: seq<Coord>)
    requires LinksInRange(h) && InGrid(h, c)
    ensures r == Pushed(h, c, d, queue)
  {
    var link := Link(h, c, d);
    if link.Some? && Val(h, link.value) == Val(h, c) + 1 {
      r := [link.value] + queue;
    } else {
      r := queue;
    }
  }

  /** The cells an expansion adds are the climbs out of `c`; the rest of the
      queue stays. */
  lemma ExpandedMembers(h: seq<seq<Height>>, c: Coord, q: seq<Coord>)
    requires LinksInRange(h) && InGrid(h, c)
    ensures forall v :: v in q ==> v in Expanded(h, c, q)
    ensures forall d :: Climb(h, c, d).Some? ==> Climb(h, c, d).value in Expanded(h, c, q)
    ensures forall v :: v in Expanded(h, c, q) ==> v in q || exists d :: Climb(h, c, d) == Some(v)
  {
    var q1 := Pushed(h, c, Up, q);
    var q2 := Pushed(h, c, Down, q1);
    var q3 := Pushed(h, c, Left, q2);
    var q4 := Pushed(h, c, Right, q3);
    assert forall v :: v in q1 <==> v in q || Climb(h, c, Up) == Some(v);
    assert forall v :: v in q2 <==> v in q1 || Climb(h, c, Down) == Some(v);
    assert forall v :: v in q3 <==> v in q2 || Climb(h, c, Left) == Some(v);
    assert forall v :: v in q4 <==> v in q3 || Climb(h, c, Right) == Some(v);
    forall d | Climb(h, c, d).Some? ensures Climb(h, c, d).value in q4 {
      match d
      case Up =>
      case Down =>
      case Left =>
      case Right =>
    }
  }

  /** The queue with `n` pushed at the front. */
  lemma PushFront(h: seq<seq<Height>>, n: Coord, q: seq<Coord>, target: nat)
    requires LinksInRange(h) && InGrid(h, n) && forall k :: 0 <= k < |q| ==> InGrid(h, q[k])
    ensures QueuedPaths(h, [n] + q, target) == Paths(h, n, target) + QueuedPaths(h, q, target)
    ensures Weight(h, [n] + q) == HeightWeight(Val(h, n)) + Weight(h, q)
  {
    assert ([n] + q)[1..] == q;
  }

  /** Taking the head off a non-empty queue. */
  lemma PopFront(h: seq<seq<Height>>, q: seq<Coord>, target: nat)
    requires LinksInRange(h) && q != [] && forall k :: 0 <= k < |q| ==> InGrid(h, q[k])
    ensures QueuedPaths(h, q, target) == Paths(h, q[0], target) + QueuedPaths(h, q[1..], target)
    ensures Weight(h, q) == HeightWeight(Val(h, q[0])) + Weight(h, q[1..])
  {
  }

  /** One push, from the queue's point of view. */
  lemma ClimbPushed(h: seq<seq<Height>>, c: Coord, d: Dir, q: seq<Coord>, target: nat)
    requires LinksInRange(h) && InGrid(h, c) && Val(h, c) != target
    requires forall k :: 0 <= k < |q| ==> InGrid(h, q[k])
    ensures forall k :: 0 <= k < |Pushed(h, c, d, q)| ==> InGrid(h, Pushed(h, c, d, q)[k])
    ensures QueuedPaths(h, Pushed(h, c, d, q), target) ==
      (match Climb(h, c, d) case Some(n) => Paths(h, n, target) case None => 0) + QueuedPaths(h, q, target)
    ensures 5 * Weight(h, Pushed(h, c, d, q)) <= HeightWeight(Val(h, c)) + 5 * Weight(h, q)
  {
    match Climb(h, c, d)
    case Some(n) =>
      PushFront(h, n, q, target);
      ClimbWeight(Val(h, c));
    case None =>
  }

  /** Expanding a non-target cell replaces its trails by those of its climbs,
      and lowers the weight. */
  lemma ExpandPaths(h: seq<seq<Height>>, c: Coord, q: seq<Coord>, target: nat)
    requires LinksInRange(h) && InGrid(h, c) && Val(h, c) != target
    requires forall k :: 0 <= k < |q| ==> InGrid(h, q[k])
    ensures forall k :: 0 <= k < |Expanded(h, c, q)| ==> InGrid(h, Expanded(h, c, q)[k])
    ensures QueuedPaths(h, Expanded(h, c, q), target) == Paths(h, c, target) + QueuedPaths(h, q, target)
    ensures Weight(h, Expanded(h, c, q)) < HeightWeight(Val(h, c)) + Weight(h, q)
  {
    var q1 := Pushed(h, c, Up, q);
    var q2 := Pushed(h, c, Down, q1);
    var q3 := Pushed(h, c, Left, q2);
    ClimbPushed(h, c, Up, q, target);
    ClimbPushed(h, c, Down, q1, target);
    ClimbPushed(h, c, Left, q2, target);
    ClimbPushed(h, c, Right, q3, target);
  }

  /** `get_all_possible_path_score`: a worklist of cells; a cell at the target
      height counts one, any other queues its climbs. */
  method AllPathsScore(h: seq<seq<Height>>, trailhead: Coord, target: nat) returns (count: nat)
    requires LinksInRange(h) && InGrid(h, trailhead)
    ensures count == Paths(h, trailhead, target)
  {
    count := 0;
    var queue := [trailhead];
    assert queue[1..] == [];
    while queue != []
      invariant forall k :: 0 <= k < |queue| ==> InGrid(h, queue[k])
      invariant count + QueuedPaths(h, queue, target) == Paths(h, trailhead, target)
      decreases Weight(h, queue)
    {
      var node := queue[0];
      PopFront(h, queue, target);
      queue := queue[1..];
      if Val(h, node) == target {
        count := count + 1;
      } else {
        ExpandPaths(h, node, queue, target);
        queue := PushClimb(h, node, Up, queue);
        queue := PushClimb(h, node, Down, queue);
        queue := PushClimb(h, node, Left, queue);
        queue := PushClimb(h, node, Right, queue);
      }
    }
  }

  /** The cells of the map. */
  function Cells(h: seq<seq<Height>>): set<Coord> {
    set x, y | 0 <= x < |h| && 0 <= y < |h[x]| :: Coord(x, y)
  }

  /** Every climb out of a non-target cell of `s` lands in `s` or in `q`. */
  ghost predicate ClosedUnder(h: seq<seq<Height>>, s: set<Coord>, q: seq<Coord>, target: nat)
    requires LinksInRange(h)
  {
    forall v, d :: v in s && InGrid(h, v) && Val(h, v) != target && Climb(h, v, d).Some? ==>
      Climb(h, v, d).value in s || Climb(h, v, d).value in q
  }

  /** A set closed under climbing holds everything reachable from its members. */
  lemma ReachWithin(h: seq<seq<Height>>, s: set<Coord>, c: Coord, target: nat)
    requires LinksInRange(h) && InGrid(h, c) && c in s && ClosedUnder(h, s, [], target)
    ensures Reach(h, c, target) <= s
    decreases 10 - Val(h, c)
  {
    if Val(h, c) != target {
      var ds := [Up, Down, Left, Right];
      forall k | 0 <= k < 4 && Climb(h, c, ds[k]).Some? ensures Reach(h, Climb(h, c, ds[k]).value, target) <= s {
        ReachWithin(h, s, Climb(h, c, ds[k]).value, target);
      }
      assert ds[0] == Up && ds[1] == Down && ds[2] == Left && ds[3] == Right;
    }
  }

  /** Climbing from a reached cell stays within the reach. */
  lemma ReachClosed(h: seq<seq<Height>>, c: Coord, v: Coord, d: Dir, target: nat)
    requires LinksInRange(h) && InGrid(h, c) && v in Reach(h, c, target)
    requires Val(h, v) != target && Climb(h, v, d).Some?
    ensures Climb(h, v, d).value in Reach(h, c, target)
    decreases 10 - Val(h, c)
  {
    if v != c {
      var ds := [Up, Down, Left, Right];
      assert ds[0] == Up && ds[1] == Down && ds[2] == Left && ds[3] == Right;
      var k :| 0 <= k < 4 && Climb(h, c, ds[k]).Some? && v in Reach(h, Climb(h, c, ds[k]).value, target);
      ReachClosed(h, Climb(h, c, ds[k]).value, v, d, target);
    }
  }

  lemma ReachClosedAll(h: seq<seq<Height>>, c: Coord, target: nat)
    requires LinksInRange(h) && InGrid(h, c)
    ensures ClosedUnder(h, Reach(h, c, target), [], target)
  {
    forall v, d | v in Reach(h, c, target) && InGrid(h, v) && Val(h, v) != target && Climb(h, v, d).Some?
      ensures Climb(h, v, d).value in Reach(h, c, target)
    {
      ReachClosed(h, c, v, d, target);
    }
  }

  /** Popping a visited cell keeps the visited set closed. */
  lemma ClosedDrop(h: seq<seq<Height>>, s: set<Coord>, node: Coord, q: seq<Coord>, target: nat)
    requires LinksInRange(h) && node in s && ClosedUnder(h, s, [node] + q, target)
    ensures ClosedUnder(h, s, q, target)
  {
    forall v, d | v in s && InGrid(h, v) && Val(h, v) != target && Climb(h, v, d).Some?
      ensures Climb(h, v, d).value in s || Climb(h, v, d).value in q
    {
      assert Climb(h, v, d).value in s || Climb(h, v, d).value in [node] + q;
    }
  }

  /** Visiting a target cell keeps the visited set closed. */
  lemma ClosedAddTarget(h: seq<seq<Height>>, s: set<Coord>, node: Coord, q: seq<Coord>, target: nat)
    requires LinksInRange(h) && InGrid(h, node) && Val(h, node) == target && ClosedUnder(h, s, [node] + q, target)
    ensures ClosedUnder(h, s + {node}, q, target)
  {
    forall v, d | v in s + {node} && InGrid(h, v) && Val(h, v) != target && Climb(h, v, d).Some?
      ensures Climb(h, v, d).value in s + {node} || Climb(h, v, d).value in q
    {
      assert Climb(h, v, d).value in s || Climb(h, v, d).value in [node] + q;
    }
  }

  /** Visiting and expanding any other cell keeps the visited set closed. */
  lemma ClosedExpand(h: seq<seq<Height>>, s: set<Coord>, node: Coord, q: seq<Coord>, target: nat)
    requires LinksInRange(h) && InGrid(h, node) && ClosedUnder(h, s, [node] + q, target)
    ensures ClosedUnder(h, s + {node}, Expanded(h, node, q), target)
  {
    ExpandedMembers(h, node, q);
    forall v, d | v in s + {node} && InGrid(h, v) && Val(h, v) != target && Climb(h, v, d).Some?
      ensures Climb(h, v, d).value in s + {node} || Climb(h, v, d).value in Expanded(h, node, q)
    {
      if v != node {
        assert Climb(h, v, d).value in s || Climb(h, v, d).value in [node] + q;
      }
    }
  }

  /** An expansion of a cell of a closed set `r` only queues cells of `r`. */
  lemma ExpandWithin(h: seq<seq<Height>>, r: set<Coord>, node: Coord, q: seq<Coord>, target: nat)
    requires LinksInRange(h) && InGrid(h, node) && Val(h, node) != target
    requires node in r && ClosedUnder(h, r, [], target)
    requires forall k :: 0 <= k < |q| ==> InGrid(h, q[k]) && q[k] in r
    ensures forall k :: 0 <= k < |Expanded(h, node, q)| ==> InGrid(h, Expanded(h, node, q)[k]) && Expanded(h, node, q)[k] in r
  {
    ExpandedMembers(h, node, q);
    var e := Expanded(h, node, q);
    forall k | 0 <= k < |e| ensures InGrid(h, e[k]) && e[k] in r {
      assert e[k] in e;
      if e[k] !in q {
        var d :| Climb(h, node, d) == Some(e[k]);
      } else {
        var m :| 0 <= m < |q| && q[m] == e[k];
      }
    }
  }

  /** What the unique-destination traversal keeps while it runs: the
      queue and the visited cells lie in the reach of the trailhead, the
      visited cells are closed up to the queue, and the count is the number
      of target cells visited. */
  ghost predicate Searching(h: seq<seq<Height>>, reach: set<Coord>, trailhead: Coord, target: nat,
                            visited: set<Coord>, queue: seq<Coord>, count: nat)
    requires LinksInRange(h)
  {
    && (forall k :: 0 <= k < |queue| ==> InGrid(h, queue[k]) && queue[k] in reach)
    && visited <= reach && visited <= Cells(h)
    && (trailhead in visited || trailhead in queue)
    && ClosedUnder(h, visited, queue, target)
    && count == |TargetsIn(h, visited, target)|
  }

  /** Visiting a cell not yet visited leaves fewer unvisited cells. */
  lemma VisitShrinks(h: seq<seq<Height>>, visited: set<Coord>, node: Coord)
    requires InGrid(h, node) && node !in visited
    ensures |Cells(h) - (visited + {node})| < |Cells(h) - visited|
  {
    assert node == Coord(node.x, node.y);
    var before := Cells(h) - visited;
    var after := Cells(h) - (visited + {node});
    assert before == after + {node};
    assert node !in after;
  }

  /** The head of the queue was visited already: it is dropped. */
  lemma SearchDrop(h: seq<seq<Height>>, reach: set<Coord>, trailhead: Coord, target: nat,
                   visited: set<Coord>, queue: seq<Coord>, count: nat)
    requires LinksInRange(h) && queue != [] && queue[0] in visited
    requires Searching(h, reach, trailhead, target, visited, queue, count)
    ensures Searching(h, reach, trailhead, target, visited, queue[1..], count)
  {
    assert queue == [queue[0]] + queue[1..];
    ClosedDrop(h, visited, queue[0], queue[1..], target);
    if trailhead !in visited {
      assert trailhead in queue[1..];
    }
  }

  /** The head of the queue is a new target cell: it is visited and counted. */
  lemma SearchTarget(h: seq<seq<Height>>, reach: set<Coord>, trailhead: Coord, target: nat,
                     visited: set<Coord>, queue: seq<Coord>, count: nat)
    requires LinksInRange(h) && queue != [] && queue[0] !in visited
    requires Searching(h, reach, trailhead, target, visited, queue, count)
    requires Val(h, queue[0]) == target
    ensures Searching(h, reach, trailhead, target, visited + {queue[0]}, queue[1..], count + 1)
    ensures |Cells(h) - (visited + {queue[0]})| < |Cells(h) - visited|
  {
    var node := queue[0];
    assert queue == [node] + queue[1..];
    ClosedAddTarget(h, visited, node, queue[1..], target);
    TargetCounted(h, visited, node, target);
    VisitShrinks(h, visited, node);
    assert node == Coord(node.x, node.y);
  }

  /** A new target cell adds one to the targets visited. */
  lemma TargetCounted(h: seq<seq<Height>>, visited: set<Coord>, node: Coord, target: nat)
    requires InGrid(h, node) && node !in visited && Val(h, node) == target
    ensures |TargetsIn(h, visited + {node}, target)| == |TargetsIn(h, visited, target)| + 1
  {
    assert TargetsIn(h, visited + {node}, target) == TargetsIn(h, visited, target) + {node};
    assert node !in TargetsIn(h, visited, target);
  }

  /** The head of the queue is a new cell below the target: it is visited
      and its climbs are queued. */
  lemma SearchExpand(h: seq<seq<Height>>, reach: set<Coord>, trailhead: Coord, target: nat,
                     visited: set<Coord>, queue: seq<Coord>, count: nat)
    requires LinksInRange(h) && queue != [] && queue[0] !in visited
    requires Searching(h, reach, trailhead, target, visited, queue, count)
    requires ClosedUnder(h, reach, [], target) && Val(h, queue[0]) != target
    ensures Searching(h, reach, trailhead, target, visited + {queue[0]}, Expanded(h, queue[0], queue[1..]), count)
    ensures |Cells(h) - (visited + {queue[0]})| < |Cells(h) - visited|
  {
    var node := queue[0];
    var rest := queue[1..];
    assert queue == [node] + rest;
    ClosedExpand(h, visited, node, rest, target);
    ExpandWithin(h, reach, node, rest, target);
    ExpandedMembers(h, node, rest);
    assert TargetsIn(h, visited + {node}, target) == TargetsIn(h, visited, target);
    VisitShrinks(h, visited, node);
    assert node == Coord(node.x, node.y);
  }

  /** `get_score_unique_destinations`: the same worklist with a visited set,
      so every reachable cell is expanded once and every target cell
      counted once. */
  method UniqueScore(h: seq<seq<Height>>, trailhead: Coord, target: nat) returns (count: nat)
    requires LinksInRange(h) && InGrid(h, trailhead)
    ensures count == |TargetsIn(h, Reach(h, trailhead, target), target)|
  {
    ghost var reach := Reach(h, trailhead, target);
    ReachClosedAll(h, trailhead, target);
    var visited: set<Coord> := {};
    count := 0;
    var queue := [trailhead];
    assert TargetsIn(h, visited, target) == {};
    while queue != []
      invariant Searching(h, reach, trailhead, target, visited, queue, count)
      decreases |Cells(h) - visited|, |queue|
    {
      var node := queue[0];
      if node in visited {
        SearchDrop(h, reach, trailhead, target, visited, queue, count);
        queue := queue[1..];
      } else if Val(h, node) == target {
        SearchTarget(h, reach, trailhead, target, visited, queue, count);
        visited := visited + {node};
        count := count + 1;
        queue := queue[1..];
      } else {
        SearchExpand(h, reach, trailhead, target, visited, queue, count);
        visited := visited + {node};
        queue := queue[1..];
        queue := PushClimb(h, node, Up, queue);
        queue := PushClimb(h, node, Down, queue);
        queue := PushClimb(h, node, Left, queue);
        queue := PushClimb(h, node, Right, queue);
      }
    }
    ReachWithin(h, visited, trailhead, target);
    assert reach == visited;
  }

  /** A trailhead already at the target height scores 1 both ways. */
  lemma TargetStartScoresOne(h: seq<seq<Height>>, c: Coord, target: nat)
    requires LinksInRange(h) && InGrid(h, c) && Val(h, c) == target
    ensures Paths(h, c, target) == 1
    ensures |TargetsIn(h, Reach(h, c, target), target)| == 1
  {
    assert TargetsIn(h, Reach(h, c, target), target) == {c};
  }

  /** The distinct target cells never outnumber the trails to them. */
  lemma UniqueAtMostPaths(h: seq<seq<Height>>, c: Coord, target: nat)
    requires LinksInRange(h) && InGrid(h, c)
    ensures |TargetsIn(h, Reach(h, c, target), target)| <= Paths(h, c, target)
    decreases 10 - Val(h, c), 1
  {
    if Val(h, c) != target {
      var t := TargetsIn(h, Reach(h, c, target), target);
      var u := ClimbTargets(h, c, Up, target);
      var d := ClimbTargets(h, c, Down, target);
      var l := ClimbTargets(h, c, Left, target);
      var r := ClimbTargets(h, c, Right, target);
      ClimbAtMostPaths(h, c, Up, target);
      ClimbAtMostPaths(h, c, Down, target);
      ClimbAtMostPaths(h, c, Left, target);
      ClimbAtMostPaths(h, c, Right, target);
      assert Paths(h, c, target) == ClimbPaths(h, c, Up, target) + ClimbPaths(h, c, Down, target)
        + ClimbPaths(h, c, Left, target) + ClimbPaths(h, c, Right, target);
      assert t <= u + d + l + r;
      SubsetCard(t, u + d + l + r);
      UnionCard(u, d);
      UnionCard(u + d, l);
      UnionCard(u + d + l, r);
    } else {
      TargetStartScoresOne(h, c, target);
    }
  }

  /** The same bound through one climb. */
  lemma ClimbAtMostPaths(h: seq<seq<Height>>, c: Coord, d: Dir, target: nat)
    requires LinksInRange(h) && InGrid(h, c)
    ensures |ClimbTargets(h, c, d, target)| <= ClimbPaths(h, c, d, target)
    decreases 10 - Val(h, c), 0
  {
    if Climb(h, c, d).Some? {
      UniqueAtMostPaths(h, Climb(h, c, d).value, target);
    }
  }

  /** The target cells reached through the climb in direction `d`. */
  function ClimbTargets(h: seq<seq<Height>>, c: Coord, d: Dir, target: nat): set<Coord>
    requires LinksInRange(h) && InGrid(h, c)
  {
    match Climb(h, c, d)
    case Some(n) => TargetsIn(h, Reach(h, n, target), target)
    case None => {}
  }

  /** The trails through the climb in direction `d`. */
  function ClimbPaths(h: seq<seq<Height>>, c: Coord, d: Dir, target: nat): nat
    requires LinksInRange(h) && InGrid(h, c)
  {
    match Climb(h, c, d)
    case Some(n) => Paths(h, n, target)
    case None => 0
  }

  lemma SubsetCard(a: set<Coord>, b: set<Coord>)
    requires a <= b
    ensures |a| <= |b|
  {
    assert b == a + (b - a);
  }

  lemma UnionCard(a: set<Coord>, b: set<Coord>)
    ensures |a + b| <= |a| + |b|
  {
    assert a + b == a + (b - a);
    SubsetCard(b - a, b);
  }

  /** The distinct target cells are at most all target cells of the map. */
  lemma UniqueAtMostTargets(h: seq<seq<Height>>, c: Coord, target: nat)
    requires LinksInRange(h) && InGrid(h, c)
    ensures |TargetsIn(h, Reach(h, c, target), target)| <= |TargetsIn(h, Cells(h), target)|
  {
    var reached := TargetsIn(h, Reach(h, c, target), target);
    forall v | v in reached ensures v in TargetsIn(h, Cells(h), target) {
      assert v == Coord(v.x, v.y);
    }
    SubsetCard(reached, TargetsIn(h, Cells(h), target));
  }

  /** From a cell no higher than the target, every reached cell is at least
      as high as the start and no higher than the target. */
  lemma {:induction false} ReachHeights(h: seq<seq<Height>>, c: Coord, target: nat)
    requires LinksInRange(h) && InGrid(h, c) && Val(h, c) <= target
    ensures forall v :: v in Reach(h, c, target) ==> Val(h, c) <= Val(h, v) <= target
    decreases 10 - Val(h, c)
  {
    if Val(h, c) != target {
      forall d | Climb(h, c, d).Some? ensures forall v :: v in Reach(h, Climb(h, c, d).value, target) ==> Val(h, c) < Val(h, v) <= target {
        ReachHeights(h, Climb(h, c, d).value, target);
      }
      var ds := [Up, Down, Left, Right];
      assert ds[0] == Up && ds[1] == Down && ds[2] == Left && ds[3] == Right;
    }
  }

  /** Row-major order. */
  predicate Before(p: Coord, q: Coord) {
    p.x < q.x || (p.x == q.x && p.y < q.y)
  }

  /** The height-0 cells among the first `n` of row `x`, left to right. */
  function ZeroRow(h: seq<seq<Height>>, x: nat, n: nat): seq<Coord>
    requires x < |h| && n <= |h[x]|
  {
    if n == 0 then [] else ZeroRow(h, x, n - 1) + (if h[x][n - 1] == 0 then [Coord(x, n - 1)] else [])
  }

  /** The height-0 cells of the first `m` rows, in row-major order. */
  function ZeroRows(h: seq<seq<Height>>, m: nat): seq<Coord>
    requires m <= |h|
  {
    if m == 0 then [] else ZeroRows(h, m - 1) + ZeroRow(h, m - 1, |h[m - 1]|)
  }

  /** The trailheads of a map: its height-0 cells in row-major order. */
  function ZeroCells(h: seq<seq<Height>>): (r: seq<Coord>)
    ensures forall k :: 0 <= k < |r| ==> InGrid(h, r[k])
  {
    ZeroRowsSpec(h, |h|);
    assert forall k :: 0 <= k < |ZeroRows(h, |h|)| ==> ZeroRows(h, |h|)[k] in ZeroRows(h, |h|);
    ZeroRows(h, |h|)
  }

  lemma {:induction false} ZeroRowSpec(h: seq<seq<Height>>, x: nat, n: nat)
    requires x < |h| && n <= |h[x]|
    ensures forall c :: c in ZeroRow(h, x, n) <==> c.x == x && 0 <= c.y < n && h[x][c.y] == 0
    ensures forall k, l :: 0 <= k < l < |ZeroRow(h, x, n)| ==> Before(ZeroRow(h, x, n)[k], ZeroRow(h, x, n)[l])
    ensures forall k :: 0 <= k < |ZeroRow(h, x, n)| ==> ZeroRow(h, x, n)[k].x == x && ZeroRow(h, x, n)[k].y < n
  {
    if n > 0 {
      ZeroRowSpec(h, x, n - 1);
    }
  }

  /** The height-0 cells of the first `m` rows, each once, in strictly
      row-major order. */
  lemma {:induction false} ZeroRowsSpec(h: seq<seq<Height>>, m: nat)
    requires m <= |h|
    ensures forall c :: c in ZeroRows(h, m) <==> 0 <= c.x < m && 0 <= c.y < |h[c.x]| && h[c.x][c.y] == 0
    ensures forall k, l :: 0 <= k < l < |ZeroRows(h, m)| ==> Before(ZeroRows(h, m)[k], ZeroRows(h, m)[l])
    ensures forall k :: 0 <= k < |ZeroRows(h, m)| ==> ZeroRows(h, m)[k].x < m
  {
    if m > 0 {
      ZeroRowsSpec(h, m - 1);
      ZeroRowSpec(h, m - 1, |h[m - 1]|);
      var front := ZeroRows(h, m - 1);
      var row := ZeroRow(h, m - 1, |h[m - 1]|);
      assert forall k :: 0 <= k < |front + row| ==> (front + row)[k] == if k < |front| then front[k] else row[k - |front|];
    }
  }

  /** Two strictly row-major sequences with the same members are equal. */
  lemma {:induction false} RowMajorUnique(a: seq<Coord>, b: seq<Coord>)
    requires forall k, l :: 0 <= k < l < |a| ==> Before(a[k], a[l])
    requires forall k, l :: 0 <= k < l < |b| ==> Before(b[k], b[l])
    requires forall c :: c in a <==> c in b
    ensures a == b
    decreases |a|
  {
    assert a != [] ==> a[0] in b;
    assert b != [] ==> b[0] in a;
    if a != [] && b != [] {
      var i :| 0 <= i < |a| && a[i] == b[0];
      var j :| 0 <= j < |b| && b[j] == a[0];
      assert a[0] == b[0];
      forall c ensures c in a[1..] <==> c in b[1..] {
        if c in a[1..] {
          var k :| 0 <= k < |a| - 1 && a[1..][k] == c;
          assert Before(a[0], a[k + 1]);
          assert c in b;
          var m :| 0 <= m < |b| && b[m] == c;
          assert m != 0 && b[1..][m - 1] == c;
        }
        if c in b[1..] {
          var k :| 0 <= k < |b| - 1 && b[1..][k] == c;
          assert Before(b[0], b[k + 1]);
          assert c in a;
          var m :| 0 <= m < |a| && a[m] == c;
          assert m != 0 && a[1..][m - 1] == c;
        }
      }
      RowMajorUnique(a[1..], b[1..]);
      assert a == [a[0]] + a[1..] && b == [b[0]] + b[1..];
    }
  }

  /** `main`'s trailhead selection: the value-0 nodes of the flattened grid,
      in row-major order, each once. */
  method Trailheads(nodes: seq<seq<Node>>) returns (r: seq<Coord>)
    ensures forall c :: c in r <==> 0 <= c.x < |nodes| && 0 <= c.y < |nodes[c.x]| && nodes[c.x][c.y].val == 0
    ensures forall k, l :: 0 <= k < l < |r| ==> Before(r[k], r[l])
  {
    r := [];
    for x := 0 to |nodes|
      invariant forall c :: c in r <==> 0 <= c.x < x && 0 <= c.y < |nodes[c.x]| && nodes[c.x][c.y].val == 0
      invariant forall k, l :: 0 <= k < l < |r| ==> Before(r[k], r[l])
      invariant forall k :: 0 <= k < |r| ==> r[k].x < x
    {
      for y := 0 to |nodes[x]|
        invariant forall c :: c in r <==> (0 <= c.x < x || (c.x == x && c.y < y)) && 0 <= c.y < |nodes[c.x]| && nodes[c.x][c.y].val == 0
        invariant forall k, l :: 0 <= k < l < |r| ==> Before(r[k], r[l])
        invariant forall k :: 0 <= k < |r| ==> Before(r[k], Coord(x, y))
      {
        if nodes[x][y].val == 0 {
          r := r + [Coord(x, y)];
        }
      }
    }
  }

  function SumUnique(h: seq<seq<Height>>, ts: seq<Coord>, target: nat): nat
    requires LinksInRange(h) && forall k :: 0 <= k < |ts| ==> InGrid(h, ts[k])
  {
    if ts == [] then 0
    else SumUnique(h, ts[..|ts| - 1], target) + |TargetsIn(h, Reach(h, ts[|ts| - 1], target), target)|
  }

  function SumPaths(h: seq<seq<Height>>, ts: seq<Coord>, target: nat): nat
    requires LinksInRange(h) && forall k :: 0 <= k < |ts| ==> InGrid(h, ts[k])
  {
    if ts == [] then 0 else SumPaths(h, ts[..|ts| - 1], target) + Paths(h, ts[|ts| - 1], target)
  }

  /** `part_one`: the unique-destination scores of the trailheads, added up. */
  method PartOne(h: seq<seq<Height>>, trailheads: seq<Coord>, target: nat) returns (sum: nat)
    requires LinksInRange(h) && forall k :: 0 <= k < |trailheads| ==> InGrid(h, trailheads[k])
    ensures sum == SumUnique(h, trailheads, target)
  {
    sum := 0;
    for k := 0 to |trailheads|
      invariant sum == SumUnique(h, trailheads[..k], target)
    {
      var score := UniqueScore(h, trailheads[k], target);
      assert trailheads[..k + 1][..k] == trailheads[..k];
      sum := sum + score;
    }
    assert trailheads[..|trailheads|] == trailheads;
  }

  /** `part_two`: the trail counts of the trailheads, added up. */
  method PartTwo(h: seq<seq<Height>>, trailheads: seq<Coord>, target: nat) returns (sum: nat)
    requires LinksInRange(h) && forall k :: 0 <= k < |trailheads| ==> InGrid(h, trailheads[k])
    ensures sum == SumPaths(h, trailheads, target)
  {
    sum := 0;
    for k := 0 to |trailheads|
      invariant sum == SumPaths(h, trailheads[..k], target)
    {
      var score := AllPathsScore(h, trailheads[k], target);
      assert trailheads[..k + 1][..k] == trailheads[..k];
      sum := sum + score;
    }
    assert trailheads[..|trailheads|] == trailheads;
  }

  /** Summed over any trailheads, part one never exceeds part two. */
  lemma {:induction false} PartOneAtMostPartTwo(h: seq<seq<Height>>, ts: seq<Coord>, target: nat)
    requires LinksInRange(h) && forall k :: 0 <= k < |ts| ==> InGrid(h, ts[k])
    ensures SumUnique(h, ts, target) <= SumPaths(h, ts, target)
  {
    if ts != [] {
      PartOneAtMostPartTwo(h, ts[..|ts| - 1], target);
      UniqueAtMostPaths(h, ts[|ts| - 1], target);
    }
  }

  /** `main`: both totals for height 9, or `None` for a map that is not all digits. */
  method Solve(lines: seq<string>) returns (r: Option<(nat, nat)>)
    requires Rectangular(lines)
    ensures r.Some? <==> forall x :: 0 <= x < |lines| ==> AllDigits(lines[x])
    ensures r.Some? ==>
      LinksInRange(Heights(lines)) &&
      r.value == (SumUnique(Heights(lines), ZeroCells(Heights(lines)), 9), SumPaths(Heights(lines), ZeroCells(Heights(lines)), 9))
    ensures r.Some? ==> r.value.0 <= r.value.1
  {
    var heights := ReadHeights(lines);
    if heights.None? {
      return None;
    }
    var h := heights.value;
    var nodes := GenerateNodes(h);
    var trailheads := Trailheads(nodes);
    ZeroRowsSpec(h, |h|);
    forall c ensures c in trailheads <==> c in ZeroCells(h) {
      if 0 <= c.x < |h| && 0 <= c.y < |h[c.x]| {
        assert nodes[c.x][c.y].val == h[c.x][c.y];
      }
    }
    RowMajorUnique(trailheads, ZeroCells(h));
    var one := PartOne(h, trailheads, 9);
    var two := PartTwo(h, trailheads, 9);
    PartOneAtMostPartTwo(h, trailheads, 9);
    return Some((one, two));
  }
}
