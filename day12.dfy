/** Day 12: a grid of garden plots, each marked with a character. The plots
    are grouped by character: one region per character that occurs, listing
    its cells in row-major order. */
module Day12 {
  import opened Text

  /** A plot: its character and its position (row `x`, column `y`). */
  datatype Coordinate = Coordinate(value: char, x: nat, y: nat)

  /** Whether `(x, y)` is a cell of the grid (rows may differ in length). */
  predicate InMap(grid: seq<seq<char>>, x: int, y: int) {
    0 <= x < |grid| && 0 <= y < |grid[x]|
  }

  /** The characters of the first `n` columns of row `x`. */
  function RowNames(grid: seq<seq<char>>, x: nat, n: nat): set<char>
    requires x < |grid| && n <= |grid[x]|
  {
    if n == 0 then {} else RowNames(grid, x, n - 1) + {grid[x][n - 1]}
  }

  /** The characters of the first `m` rows. */
  function NamesUpTo(grid: seq<seq<char>>, m: nat): set<char>
    requires m <= |grid|
  {
    if m == 0 then {} else NamesUpTo(grid, m - 1) + RowNames(grid, m - 1, |grid[m - 1]|)
  }

  function Names(grid: seq<seq<char>>): set<char> {
    NamesUpTo(grid, |grid|)
  }

  /** `get_unique_region_names`: every character inserted into a set, row by row. */
  method GetUniqueRegionNames(grid: seq<seq<char>>) returns (names: set<char>)
    ensures names == Names(grid)
  {
    names := {};
    for x := 0 to |grid|
      invariant names == NamesUpTo(grid, x)
    {
      for y := 0 to |grid[x]|
        invariant names == NamesUpTo(grid, x) + RowNames(grid, x, y)
      {
        names := names + {grid[x][y]};
      }
    }
  }

  lemma {:induction false} RowNamesSpec(grid: seq<seq<char>>, x: nat, n: nat, c: char)
    requires x < |grid| && n <= |grid[x]|
    ensures c in RowNames(grid, x, n) <==> exists y :: 0 <= y < n && grid[x][y] == c
  {
    if n > 0 {
      RowNamesSpec(grid, x, n - 1, c);
    }
  }

  lemma {:induction false} NamesUpToSpec(grid: seq<seq<char>>, m: nat, c: char)
    requires m <= |grid|
    ensures c in NamesUpTo(grid, m) <==> exists x, y :: 0 <= x < m && InMap(grid, x, y) && grid[x][y] == c
  {
    if m > 0 {
      NamesUpToSpec(grid, m - 1, c);
      RowNamesSpec(grid, m - 1, |grid[m - 1]|, c);
      if exists x, y :: 0 <= x < m && InMap(grid, x, y) && grid[x][y] == c {
        var x, y :| 0 <= x < m && InMap(grid, x, y) && grid[x][y] == c;
        if x == m - 1 {
          assert c in RowNames(grid, m - 1, |grid[m - 1]|);
        }
      }
    }
  }

  /** The region names are exactly the characters found on the grid. */
  lemma NamesSpec(grid: seq<seq<char>>, c: char)
    ensures c in Names(grid) <==> exists x, y :: InMap(grid, x, y) && grid[x][y] == c
  {
    NamesUpToSpec(grid, |grid|, c);
  }

  /** The cells of the first `n` columns of row `x` holding `name`, left to right. */
  function RowCells(grid: seq<seq<char>>, name: char, x: nat, n: nat): seq<Coordinate>
    requires x < |grid| && n <= |grid[x]|
  {
    if n == 0 then []
    else RowCells(grid, name, x, n - 1) + (if grid[x][n - 1] == name then [Coordinate(name, x, n - 1)] else [])
  }

  function CellsUpTo(grid: seq<seq<char>>, name: char, m: nat): seq<Coordinate>
    requires m <= |grid|
  {
    if m == 0 then [] else CellsUpTo(grid, name, m - 1) + RowCells(grid, name, m - 1, |grid[m - 1]|)
  }

  /** The region of `name`: its cells in row-major order. */
  function Region(grid: seq<seq<char>>, name: char): seq<Coordinate> {
    CellsUpTo(grid, name, |grid|)
  }

  /** The nested scan of `get_all_regions_from_map` for one name. */
  method RegionOf(grid: seq<seq<char>>, name: char) returns (coords: seq<Coordinate>)
    ensures coords == Region(grid, name)
  {
    coords := [];
    for x := 0 to |grid|
      invariant coords == CellsUpTo(grid, name, x)
    {
      for y := 0 to |grid[x]|
        invariant coords == CellsUpTo(grid, name, x) + RowCells(grid, name, x, y)
      {
        if grid[x][y] == name {
          coords := coords + [Coordinate(grid[x][y], x, y)];
        }
      }
    }
  }

  /** Row-major order. */
  predicate Before(p: Coordinate, q: Coordinate) {
    p.x < q.x || (p.x == q.x && p.y < q.y)
  }

  lemma {:induction false} RowCellsSpec(grid: seq<seq<char>>, name: char, x: nat, n: nat)
    requires x < |grid| && n <= |grid[x]|
    ensures forall p :: p in RowCells(grid, name, x, n) <==> p.value == name && p.x == x && p.y < n && grid[x][p.y] == name
    ensures forall k, l :: 0 <= k < l < |RowCells(grid, name, x, n)| ==> Before(RowCells(grid, name, x, n)[k], RowCells(grid, name, x, n)[l])
  {
    if n > 0 {
      RowCellsSpec(grid, name, x, n - 1);
    }
  }

  /** Row-major order is kept when a later row's cells follow. */
  lemma OrderedJoin(front: seq<Coordinate>, row: seq<Coordinate>, x: nat)
    requires forall k, l :: 0 <= k < l < |front| ==> Before(front[k], front[l])
    requires forall k, l :: 0 <= k < l < |row| ==> Before(row[k], row[l])
    requires forall p :: p in front ==> p.x < x
    requires forall p :: p in row ==> p.x == x
    ensures forall k, l :: 0 <= k < l < |front + row| ==> Before((front + row)[k], (front + row)[l])
  {
    var cs := front + row;
    forall k, l | 0 <= k < l < |cs| ensures Before(cs[k], cs[l]) {
      if l < |front| {
        assert cs[k] == front[k] && cs[l] == front[l];
      } else if k >= |front| {
        assert cs[k] == row[k - |front|] && cs[l] == row[l - |front|];
      } else {
        assert cs[k] == front[k] && cs[l] == row[l - |front|];
        assert cs[k] in front && cs[l] in row;
      }
    }
  }

  lemma {:induction false} CellsUpToSpec(grid: seq<seq<char>>, name: char, m: nat)
    requires m <= |grid|
    ensures forall p :: p in CellsUpTo(grid, name, m) <==> p.value == name && p.x < m && InMap(grid, p.x, p.y) && grid[p.x][p.y] == name
    ensures forall k, l :: 0 <= k < l < |CellsUpTo(grid, name, m)| ==> Before(CellsUpTo(grid, name, m)[k], CellsUpTo(grid, name, m)[l])
  {
    if m > 0 {
      var front := CellsUpTo(grid, name, m - 1);
      var row := RowCells(grid, name, m - 1, |grid[m - 1]|);
      assert CellsUpTo(grid, name, m) == front + row;
      CellsUpToSpec(grid, name, m - 1);
      RowCellsSpec(grid, name, m - 1, |grid[m - 1]|);
      OrderedJoin(front, row, m - 1);
    }
  }

  /** The region of `name` holds every cell marked `name`, tagged with
      `name`, and nothing else, in strictly increasing row-major order (so
      each cell once). */
  lemma RegionSpec(grid: seq<seq<char>>, name: char)
    ensures forall p :: p in Region(grid, name) <==> p.value == name && InMap(grid, p.x, p.y) && grid[p.x][p.y] == name
    ensures forall k, l :: 0 <= k < l < |Region(grid, name)| ==> Before(Region(grid, name)[k], Region(grid, name)[l])
  {
    CellsUpToSpec(grid, name, |grid|);
  }

  /** The names listed once each, in some order, and no other character. */
  predicate Enumerates(order: seq<char>, names: set<char>) {
    (forall i, j :: 0 <= i < j < |order| ==> order[i] != order[j])
    && (forall c :: c in names <==> c in order)
  }

  /** The regions of the names, in the order given. */
  function RegionsFor(grid: seq<seq<char>>, order: seq<char>): (r: seq<seq<Coordinate>>)
    ensures |r| == |order|
  {
    if order == [] then [] else RegionsFor(grid, order[..|order| - 1]) + [Region(grid, order[|order| - 1])]
  }

  lemma {:induction false} RegionsForIndex(grid: seq<seq<char>>, order: seq<char>)
    ensures forall i :: 0 <= i < |order| ==> RegionsFor(grid, order)[i] == Region(grid, order[i])
  {
    if order != [] {
      var front := order[..|order| - 1];
      RegionsForIndex(grid, front);
      assert forall i :: 0 <= i < |front| ==> front[i] == order[i];
    }
  }

  /** `get_all_regions_from_map`: one region per name, in the set's
      iteration order, which `order` records. */
  method GetAllRegions(grid: seq<seq<char>>, names: set<char>) returns (regions: seq<seq<Coordinate>>, ghost order: seq<char>)
    ensures Enumerates(order, names)
    ensures regions == RegionsFor(grid, order)
  {
    regions := [];
    order := [];
    var remaining := names;
    while remaining != {}
      invariant remaining <= names
      invariant forall i, j :: 0 <= i < j < |order| ==> order[i] != order[j]
      invariant forall c :: c in names <==> c in order || c in remaining
      invariant forall c :: c in order ==> c !in remaining
      invariant regions == RegionsFor(grid, order)
      decreases |remaining|
    {
      var name :| name in remaining;
      var coords := RegionOf(grid, name);
      regions := regions + [coords];
      assert (order + [name])[..|order|] == order;
      order := order + [name];
      remaining := remaining - {name};
    }
  }

  /** The distinct names listed are as many as the set holds. */
  lemma {:induction false} EnumerationSize(order: seq<char>, names: set<char>)
    requires Enumerates(order, names)
    ensures |order| == |names|
    decreases |order|
  {
    if order != [] {
      var last := order[|order| - 1];
      var front := order[..|order| - 1];
      assert Enumerates(front, names - {last}) by {
        forall c ensures c in names - {last} <==> c in front {
          if c in order && c != last {
            var i :| 0 <= i < |order| && order[i] == c;
            assert i < |front| && front[i] == c;
          }
        }
      }
      EnumerationSize(front, names - {last});
    } else {
      assert forall c :: c !in names;
    }
  }

  /** The regions of the grid's own names: one per name, none empty; the
      cells of two different regions never coincide; and every cell of the
      grid lies in the region of its character. */
  lemma RegionsPartition(grid: seq<seq<char>>, order: seq<char>)
    requires Enumerates(order, Names(grid))
    ensures |RegionsFor(grid, order)| == |Names(grid)|
    ensures forall i :: 0 <= i < |order| ==> |RegionsFor(grid, order)[i]| > 0
    ensures forall i, j, p: Coordinate, q: Coordinate ::
      0 <= i < |order| && 0 <= j < |order| && i != j && p in RegionsFor(grid, order)[i] && q in RegionsFor(grid, order)[j] ==> (p.x, p.y) != (q.x, q.y)
    ensures forall x, y :: InMap(grid, x, y) ==> exists i :: 0 <= i < |order| && Coordinate(grid[x][y], x, y) in RegionsFor(grid, order)[i]
  {
    EnumerationSize(order, Names(grid));
    var rs := RegionsFor(grid, order);
    RegionsForIndex(grid, order);
    forall i | 0 <= i < |order| ensures |rs[i]| > 0 {
      RegionNonEmpty(grid, order[i]);
    }
    forall i, j, p: Coordinate, q: Coordinate | 0 <= i < |order| && 0 <= j < |order| && i != j && p in rs[i] && q in rs[j]
      ensures (p.x, p.y) != (q.x, q.y)
    {
      RegionSpec(grid, order[i]);
      RegionSpec(grid, order[j]);
    }
    forall x, y | InMap(grid, x, y) ensures exists i :: 0 <= i < |order| && Coordinate(grid[x][y], x, y) in rs[i] {
      var c := grid[x][y];
      NamesSpec(grid, c);
      assert c in order;
      var i :| 0 <= i < |order| && order[i] == c;
      RegionSpec(grid, c);
      assert Coordinate(c, x, y) in rs[i];
    }
  }

  /** The region of a name found on the grid is not empty. */
  lemma RegionNonEmpty(grid: seq<seq<char>>, c: char)
    requires c in Names(grid)
    ensures |Region(grid, c)| > 0
  {
    NamesSpec(grid, c);
    var x, y :| InMap(grid, x, y) && grid[x][y] == c;
    RegionSpec(grid, c);
    assert Coordinate(c, x, y) in Region(grid, c);
  }

  /** `main` up to the printing: the grid, its names, and their regions. */
  method Solve(lines: seq<string>) returns (grid: seq<seq<char>>, regions: seq<seq<Coordinate>>, ghost order: seq<char>)
    ensures |grid| == |lines| && forall x :: 0 <= x < |lines| ==> grid[x] == lines[x]
    ensures Enumerates(order, Names(grid))
    ensures regions == RegionsFor(grid, order)
  {
    grid := CharGrid(lines);
    var names := GetUniqueRegionNames(grid);
    regions, order := GetAllRegions(grid, names);
  }
}
