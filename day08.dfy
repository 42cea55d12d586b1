/** Day 8: towers of one frequency (one character) pair up, and each pair
    casts two antinodes, each tower reflected through the other; the answer
    is the set of antinodes inside the map over all frequencies. */
module Day8 {
  import opened Text

  datatype Coord = Coord(x: int, y: int)

  predicate InGrid(grid: seq<seq<char>>, c: Coord) {
    0 <= c.x < |grid| && 0 <= c.y < |grid[c.x]|
  }

  /** The point beyond `p` on the line from `q`, as far from `p` as `q` is: `2p - q`. */
  function Reflect(p: Coord, q: Coord): Coord {
    Coord(2 * p.x - q.x, 2 * p.y - q.y)
  }

  function Abs(v: int): nat {
    if v < 0 then -v else v
  }

  /** The two points of one pair `i < j`, each axis split on the sign of its
      delta: whichever branch is taken, the first point lies beyond `p` and
      the second beyond `q`. */
  function AntinodePair(p: Coord, q: Coord): (r: (Coord, Coord))
    ensures r.0 == Reflect(p, q) && r.1 == Reflect(q, p)
  {
    var dx := p.x - q.x;
    var dy := p.y - q.y;
    var (x1, x2) := if dx > 0 then (p.x + Abs(dx), q.x - Abs(dx)) else (p.x - Abs(dx), q.x + Abs(dx));
    var (y1, y2) := if dy > 0 then (p.y + Abs(dy), q.y - Abs(dy)) else (p.y - Abs(dy), q.y + Abs(dy));
    (Coord(x1, y1), Coord(x2, y2))
  }

  /** The antinodes of tower `i` with the towers `i+1 .. n-1`, in order. */
  function PairRow(ts: seq<Coord>, i: nat, n: nat): seq<Coord>
    requires i < |ts| && n <= |ts|
  {
    if n <= i + 1 then []
    else PairRow(ts, i, n - 1) + [Reflect(ts[i], ts[n - 1]), Reflect(ts[n - 1], ts[i])]
  }

  /** The antinodes of the pairs whose first tower is among the first `m`. */
  function PairsUpTo(ts: seq<Coord>, m: nat): seq<Coord>
    requires m <= |ts|
  {
    if m == 0 then [] else PairsUpTo(ts, m - 1) + PairRow(ts, m - 1, |ts|)
  }

  function Antinodes(ts: seq<Coord>): seq<Coord> {
    PairsUpTo(ts, |ts|)
  }

  /** `get_antinodes_for_freq`: both points of every pair `i < j`. */
  method GetAntinodesForFreq(ts: seq<Coord>) returns (r: seq<Coord>)
    ensures r == Antinodes(ts)
  {
    r := [];
    for i := 0 to |ts|
      invariant r == PairsUpTo(ts, i)
    {
      for j := i + 1 to |ts|
        invariant r == PairsUpTo(ts, i) + PairRow(ts, i, j)
      {
        var pair := AntinodePair(ts[i], ts[j]);
        r := r + [pair.0, pair.1];
      }
    }
  }

  lemma {:induction false} PairRowLength(ts: seq<Coord>, i: nat, n: nat)
    requires i < n <= |ts|
    ensures |PairRow(ts, i, n)| == 2 * (n - i - 1)
    decreases n
  {
    if n > i + 1 {
      PairRowLength(ts, i, n - 1);
    }
  }

  lemma {:induction false} PairsUpToLength(ts: seq<Coord>, m: nat)
    requires m <= |ts|
    ensures |PairsUpTo(ts, m)| == m * (2 * |ts| - m - 1)
  {
    if m > 0 {
      var n := |ts|;
      PairsUpToLength(ts, m - 1);
      PairRowLength(ts, m - 1, n);
      PairsStep(n, m);
    }
  }

  lemma PairsStep(n: int, m: int)
    ensures (m - 1) * (2 * n - m) + 2 * (n - m) == m * (2 * n - m - 1)
  {
  }

  /** `n` towers give `n (n - 1)` candidates: none for a lone tower. */
  lemma AntinodesLength(ts: seq<Coord>)
    ensures |Antinodes(ts)| == |ts| * (|ts| - 1)
  {
    PairsUpToLength(ts, |ts|);
  }

  /** Tower `i` and tower `j` cast `c`, one way or the other. */
  predicate Casts(ts: seq<Coord>, c: Coord, i: int, j: int)
    requires 0 <= i < |ts| && 0 <= j < |ts|
  {
    c == Reflect(ts[i], ts[j]) || c == Reflect(ts[j], ts[i])
  }

  lemma {:induction false} PairRowMembers(ts: seq<Coord>, c: Coord, i: nat, n: nat)
    requires i < |ts| && n <= |ts|
    ensures c in PairRow(ts, i, n) <==> exists j :: i < j < n && Casts(ts, c, i, j)
    decreases n
  {
    if n > i + 1 {
      PairRowMembers(ts, c, i, n - 1);
      if c in PairRow(ts, i, n) && c !in PairRow(ts, i, n - 1) {
        assert Casts(ts, c, i, n - 1);
      }
    }
  }

  lemma {:induction false} PairsUpToMembers(ts: seq<Coord>, c: Coord, m: nat)
    requires m <= |ts|
    ensures c in PairsUpTo(ts, m) <==> exists i, j :: 0 <= i < m && i < j < |ts| && Casts(ts, c, i, j)
  {
    if m > 0 {
      var k := m - 1;
      var earlier := PairsUpTo(ts, k);
      var row := PairRow(ts, k, |ts|);
      assert PairsUpTo(ts, m) == earlier + row;
      PairsUpToMembers(ts, c, k);
      PairRowMembers(ts, c, k, |ts|);
      PairsUpToMembersStep(ts, c, k, earlier, row);
    }
  }

  /** The step of `PairsUpToMembers`: the pairs of tower `k`, in `row`,
      join those of the earlier towers, in `earlier`. */
  lemma PairsUpToMembersStep(ts: seq<Coord>, c: Coord, k: nat, earlier: seq<Coord>, row: seq<Coord>)
    requires k < |ts|
    requires c in earlier <==> exists i, j :: 0 <= i < k && i < j < |ts| && Casts(ts, c, i, j)
    requires c in row <==> exists j :: k < j < |ts| && Casts(ts, c, k, j)
    ensures c in earlier + row <==> exists i, j :: 0 <= i < k + 1 && i < j < |ts| && Casts(ts, c, i, j)
  {
    if exists i, j :: 0 <= i < k + 1 && i < j < |ts| && Casts(ts, c, i, j) {
      var i, j :| 0 <= i < k + 1 && i < j < |ts| && Casts(ts, c, i, j);
      if i < k {
        assert c in earlier;
      } else {
        assert c in row;
      }
    }
  }

  /** A point is a candidate exactly when it is `2 t_i - t_j` for two different towers. */
  lemma AntinodesMembers(ts: seq<Coord>, c: Coord)
    ensures c in Antinodes(ts) <==> exists i, j :: 0 <= i < |ts| && 0 <= j < |ts| && i != j && c == Reflect(ts[i], ts[j])
  {
    PairsUpToMembers(ts, c, |ts|);
    if exists i, j :: 0 <= i < |ts| && 0 <= j < |ts| && i != j && c == Reflect(ts[i], ts[j]) {
      var i, j :| 0 <= i < |ts| && 0 <= j < |ts| && i != j && c == Reflect(ts[i], ts[j]);
      if i < j {
        assert Casts(ts, c, i, j);
      } else {
        assert Casts(ts, c, j, i);
      }
    }
  }

  /** Cells of the first `n` columns of row `x` holding `f`, left to right. */
  function RowTowers(grid: seq<seq<char>>, f: char, x: nat, n: nat): seq<Coord>
    requires x < |grid| && n <= |grid[x]|
  {
    if n == 0 then []
    else RowTowers(grid, f, x, n - 1) + (if grid[x][n - 1] == f then [Coord(x, n - 1)] else [])
  }

  function TowersUpTo(grid: seq<seq<char>>, f: char, m: nat): seq<Coord>
    requires m <= |grid|
  {
    if m == 0 then [] else TowersUpTo(grid, f, m - 1) + RowTowers(grid, f, m - 1, |grid[m - 1]|)
  }

  function Towers(grid: seq<seq<char>>, f: char): seq<Coord> {
    TowersUpTo(grid, f, |grid|)
  }

  /** `get_all_tower_locations_for_freq`: a row-major scan. */
  method GetAllTowerLocations(grid: seq<seq<char>>, f: char) returns (r: seq<Coord>)
    ensures r == Towers(grid, f)
  {
    r := [];
    for x := 0 to |grid|
      invariant r == TowersUpTo(grid, f, x)
    {
      for y := 0 to |grid[x]|
        invariant r == TowersUpTo(grid, f, x) + RowTowers(grid, f, x, y)
      {
        if grid[x][y] == f {
          r := r + [Coord(x, y)];
        }
      }
    }
  }

  /** Row-major order. */
  predicate Before(p: Coord, q: Coord) {
    p.x < q.x || (p.x == q.x && p.y < q.y)
  }

  lemma {:induction false} RowTowersSpec(grid: seq<seq<char>>, f: char, x: nat, n: nat)
    requires x < |grid| && n <= |grid[x]|
    ensures forall c :: c in RowTowers(grid, f, x, n) <==> c.x == x && 0 <= c.y < n && grid[x][c.y] == f
    ensures forall k, l :: 0 <= k < l < |RowTowers(grid, f, x, n)| ==> Before(RowTowers(grid, f, x, n)[k], RowTowers(grid, f, x, n)[l])
  {
    if n > 0 {
      RowTowersSpec(grid, f, x, n - 1);
    }
  }

  lemma {:induction false} TowersUpToSpec(grid: seq<seq<char>>, f: char, m: nat)
    requires m <= |grid|
    ensures forall c :: c in TowersUpTo(grid, f, m) <==> 0 <= c.x < m && InGrid(grid, c) && grid[c.x][c.y] == f
    ensures forall k, l :: 0 <= k < l < |TowersUpTo(grid, f, m)| ==> Before(TowersUpTo(grid, f, m)[k], TowersUpTo(grid, f, m)[l])
  {
    if m > 0 {
      TowersUpToSpec(grid, f, m - 1);
      RowTowersSpec(grid, f, m - 1, |grid[m - 1]|);
      var front := TowersUpTo(grid, f, m - 1);
      var row := RowTowers(grid, f, m - 1, |grid[m - 1]|);
      var ts := TowersUpTo(grid, f, m);
      forall k, l | 0 <= k < l < |ts| ensures Before(ts[k], ts[l]) {
        if l < |front| {
          assert ts[k] == front[k] && ts[l] == front[l];
        } else if k >= |front| {
          assert ts[k] == row[k - |front|] && ts[l] == row[l - |front|];
        } else {
          assert ts[k] == front[k] && ts[l] == row[l - |front|];
          assert ts[k] in front && ts[l] in row;
        }
      }
    }
  }

  /** The towers of `f` are exactly its cells, each once, in row-major order. */
  lemma TowersSpec(grid: seq<seq<char>>, f: char)
    ensures forall c :: c in Towers(grid, f) <==> InGrid(grid, c) && grid[c.x][c.y] == f
    ensures forall k, l :: 0 <= k < l < |Towers(grid, f)| ==> Before(Towers(grid, f)[k], Towers(grid, f)[l])
  {
    TowersUpToSpec(grid, f, |grid|);
  }

  /** The characters other than `.` in the first `n` columns of row `x`. */
  function RowFrequencies(grid: seq<seq<char>>, x: nat, n: nat): set<char>
    requires x < |grid| && n <= |grid[x]|
  {
    if n == 0 then {}
    else RowFrequencies(grid, x, n - 1) + (if grid[x][n - 1] != '.' then {grid[x][n - 1]} else {})
  }

  /** The scan of `get_all_unique_frequencies`, whose column bound is the row
      count `|grid|`, over the first `m` rows. */
  function FrequenciesUpTo(grid: seq<seq<char>>, m: nat): set<char>
    requires m <= |grid|
    requires forall x :: 0 <= x < |grid| ==> |grid| <= |grid[x]|
  {
    if m == 0 then {} else FrequenciesUpTo(grid, m - 1) + RowFrequencies(grid, m - 1, |grid|)
  }

  function Frequencies(grid: seq<seq<char>>): set<char>
    requires forall x :: 0 <= x < |grid| ==> |grid| <= |grid[x]|
  {
    FrequenciesUpTo(grid, |grid|)
  }

  /** `get_all_unique_frequencies`. Both loops run to `map.len()`, so a row
      shorter than the row count is indexed out of range (the program
      aborts), hence the precondition. */
  method GetAllUniqueFrequencies(grid: seq<seq<char>>) returns (freqs: set<char>)
    requires forall x :: 0 <= x < |grid| ==> |grid| <= |grid[x]|
    ensures freqs == Frequencies(grid)
  {
    freqs := {};
    for x := 0 to |grid|
      invariant freqs == FrequenciesUpTo(grid, x)
    {
      for y := 0 to |grid|
        invariant freqs == FrequenciesUpTo(grid, x) + RowFrequencies(grid, x, y)
      {
        if grid[x][y] != '.' {
          freqs := freqs + {grid[x][y]};
        }
      }
    }
  }

  lemma {:induction false} RowFrequenciesSpec(grid: seq<seq<char>>, x: nat, n: nat, f: char)
    requires x < |grid| && n <= |grid[x]|
    ensures f in RowFrequencies(grid, x, n) <==> f != '.' && exists y :: 0 <= y < n && grid[x][y] == f
  {
    if n > 0 {
      RowFrequenciesSpec(grid, x, n - 1, f);
    }
  }

  lemma {:induction false} FrequenciesUpToSpec(grid: seq<seq<char>>, m: nat, f: char)
    requires m <= |grid|
    requires forall x :: 0 <= x < |grid| ==> |grid| <= |grid[x]|
    ensures f in FrequenciesUpTo(grid, m) <==> f != '.' && exists x, y :: 0 <= x < m && 0 <= y < |grid| && grid[x][y] == f
  {
    if m > 0 {
      FrequenciesUpToSpec(grid, m - 1, f);
      RowFrequenciesSpec(grid, m - 1, |grid|, f);
      if f != '.' && exists x, y :: 0 <= x < m && 0 <= y < |grid| && grid[x][y] == f {
        var x, y :| 0 <= x < m && 0 <= y < |grid| && grid[x][y] == f;
        if x == m - 1 {
          assert f in RowFrequencies(grid, m - 1, |grid|);
        }
      }
    }
  }

  /** The frequencies are the characters other than `.` found in the
      leftmost `|grid|` columns: on a square grid, every such character. */
  lemma FrequenciesSpec(grid: seq<seq<char>>, f: char)
    requires forall x :: 0 <= x < |grid| ==> |grid| <= |grid[x]|
    ensures f in Frequencies(grid) <==> f != '.' && exists x, y :: 0 <= x < |grid| && 0 <= y < |grid| && grid[x][y] == f
  {
    FrequenciesUpToSpec(grid, |grid|, f);
  }

  /** On a grid wider than it is tall, a character right of the scanned
      columns is never a frequency. */
  lemma WideGridMissesColumns()
    ensures 'a' !in Frequencies([".a"])
  {
    FrequenciesSpec([".a"], 'a');
  }

  /** Inside `[0, |grid|) x [0, |grid[0]|)`; nothing is, in an empty grid. */
  predicate InBounds(grid: seq<seq<char>>, c: Coord) {
    |grid| > 0 && 0 <= c.y && 0 <= c.x && c.x < |grid| && c.y < |grid[0]|
  }

  /** The bounds filter, keeping the order of the candidates. */
  function KeepInBounds(grid: seq<seq<char>>, cs: seq<Coord>): (r: seq<Coord>)
    ensures forall c :: c in r <==> c in cs && InBounds(grid, c)
  {
    if cs == [] then []
    else
      var last := cs[|cs| - 1];
      assert cs == cs[..|cs| - 1] + [last];
      KeepInBounds(grid, cs[..|cs| - 1]) + (if InBounds(grid, last) then [last] else [])
  }

  /** The in-bounds antinodes of frequency `f`. */
  function Contribution(grid: seq<seq<char>>, f: char): set<Coord>
  {
    set c | c in Antinodes(Towers(grid, f)) && InBounds(grid, c)
  }

  /** The union of the contributions of the frequencies `fs`. */
  function Union(grid: seq<seq<char>>, fs: set<char>): set<Coord>
  {
    set f, c | f in fs && c in Contribution(grid, f) :: c
  }

  function UniqueAntinodes(grid: seq<seq<char>>): set<Coord>
    requires forall x :: 0 <= x < |grid| ==> |grid| <= |grid[x]|
  {
    Union(grid, Frequencies(grid))
  }

  lemma UnionAdd(grid: seq<seq<char>>, fs: set<char>, f: char)
    ensures Union(grid, fs + {f}) == Union(grid, fs) + Contribution(grid, f)
  {
    forall c | c in Union(grid, fs + {f}) ensures c in Union(grid, fs) + Contribution(grid, f) {
      var g :| g in fs + {f} && c in Contribution(grid, g);
      if g != f {
        assert c in Union(grid, fs);
      }
    }
  }

  /** `get_unique_antinodes`: frequencies are taken in any order, each one's
      filtered candidates inserted into the set. */
  method GetUniqueAntinodes(grid: seq<seq<char>>) returns (unique: set<Coord>)
    requires forall x :: 0 <= x < |grid| ==> |grid| <= |grid[x]|
    ensures unique == UniqueAntinodes(grid)
  {
    var freqs := GetAllUniqueFrequencies(grid);
    var remaining := freqs;
    unique := {};
    while remaining != {}
      invariant remaining <= freqs
      invariant unique == Union(grid, freqs - remaining)
      decreases |remaining|
    {
      var f :| f in remaining;
      var towers := GetAllTowerLocations(grid, f);
      var antinodes := GetAntinodesForFreq(towers);
      var kept := KeepInBounds(grid, antinodes);
      ghost var before := unique;
      for k := 0 to |kept|
        invariant unique == before + set l | 0 <= l < k :: kept[l]
      {
        unique := unique + {kept[k]};
      }
      assert (set l | 0 <= l < |kept| :: kept[l]) == Contribution(grid, f) by {
        forall c | c in Contribution(grid, f) ensures c in set l | 0 <= l < |kept| :: kept[l] {
          var l :| 0 <= l < |kept| && kept[l] == c;
        }
      }
      UnionAdd(grid, freqs - remaining, f);
      assert freqs - (remaining - {f}) == (freqs - remaining) + {f};
      remaining := remaining - {f};
    }
    assert freqs - remaining == freqs;
  }

  /** Two different cells of `grid` hold the same frequency and `c` lies
      beyond the first of them, at `2p - q`. */
  ghost predicate Antinode(grid: seq<seq<char>>, c: Coord) {
    exists p, q :: SameFrequency(grid, p, q) && grid[p.x][p.y] != '.' && c == Reflect(p, q)
  }

  /** Two different cells holding the same character. */
  predicate SameFrequency(grid: seq<seq<char>>, p: Coord, q: Coord) {
    InGrid(grid, p) && InGrid(grid, q) && p != q && grid[p.x][p.y] == grid[q.x][q.y]
  }

  /** The candidates of one frequency, as cells: `2p - q` for two different
      cells `p`, `q` holding `f`. */
  lemma ContributionSpec(grid: seq<seq<char>>, f: char, c: Coord)
    ensures c in Antinodes(Towers(grid, f)) <==> exists p, q :: SameFrequency(grid, p, q) && grid[p.x][p.y] == f && c == Reflect(p, q)
  {
    var ts := Towers(grid, f);
    AntinodesMembers(ts, c);
    if c in Antinodes(ts) {
      var i, j :| 0 <= i < |ts| && 0 <= j < |ts| && i != j && c == Reflect(ts[i], ts[j]);
      TowerPair(grid, f, i, j);
    }
    if exists p, q :: SameFrequency(grid, p, q) && grid[p.x][p.y] == f && c == Reflect(p, q) {
      var p, q :| SameFrequency(grid, p, q) && grid[p.x][p.y] == f && c == Reflect(p, q);
      var i := TowerIndex(grid, f, p);
      var j := TowerIndex(grid, f, q);
    }
  }

  /** Two different positions of the tower list are two different cells of `f`. */
  lemma TowerPair(grid: seq<seq<char>>, f: char, i: int, j: int)
    requires 0 <= i < |Towers(grid, f)| && 0 <= j < |Towers(grid, f)| && i != j
    ensures SameFrequency(grid, Towers(grid, f)[i], Towers(grid, f)[j])
    ensures grid[Towers(grid, f)[i].x][Towers(grid, f)[i].y] == f
  {
    var ts := Towers(grid, f);
    TowersSpec(grid, f);
    assert ts[i] in ts && ts[j] in ts;
    if i < j {
      assert Before(ts[i], ts[j]);
    } else {
      assert Before(ts[j], ts[i]);
    }
  }

  /** A cell holding `f` has a position in the tower list. */
  lemma TowerIndex(grid: seq<seq<char>>, f: char, p: Coord) returns (i: nat)
    requires InGrid(grid, p) && grid[p.x][p.y] == f
    ensures i < |Towers(grid, f)| && Towers(grid, f)[i] == p
  {
    TowersSpec(grid, f);
    i :| 0 <= i < |Towers(grid, f)| && Towers(grid, f)[i] == p;
  }

  /** On a square map, the answer is every in-bounds point `2p - q` for two
      different cells `p`, `q` of the same frequency. */
  lemma UniqueAntinodesSpec(grid: seq<seq<char>>, c: Coord)
    requires forall x :: 0 <= x < |grid| ==> |grid[x]| == |grid|
    ensures c in UniqueAntinodes(grid) <==> InBounds(grid, c) && Antinode(grid, c)
  {
    if c in UniqueAntinodes(grid) {
      var f :| f in Frequencies(grid) && c in Contribution(grid, f);
      ContributionSpec(grid, f, c);
      FrequenciesSpec(grid, f);
    }
    if InBounds(grid, c) && Antinode(grid, c) {
      var p, q :| SameFrequency(grid, p, q) && grid[p.x][p.y] != '.' && c == Reflect(p, q);
      var f := grid[p.x][p.y];
      ContributionSpec(grid, f, c);
      FrequenciesSpec(grid, f);
      assert f in Frequencies(grid);
      assert c in Contribution(grid, f);
    }
  }

  /** `main`: the map from the lines of the file and the number of distinct antinodes. */
  method Solve(lines: seq<string>) returns (count: nat)
    requires forall x :: 0 <= x < |lines| ==> |lines| <= |lines[x]|
    ensures count == |UniqueAntinodes(lines)|
  {
    var grid := CharGrid(lines);
    assert grid == lines;
    var unique := GetUniqueAntinodes(grid);
    count := |unique|;
  }
}
