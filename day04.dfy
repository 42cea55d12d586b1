/** Day 4: a word search counting `XMAS` in all eight directions, as an `X`
    followed by the remaining word `MAS`. */
module Day4 {
  import opened Text

  datatype Direction = Left | Right | Up | Down | LeftUp | RightUp | LeftDown | RightDown {
    /** The row step: up is towards row 0. */
    function DX(): int {
      match this
      case Up => -1
      case LeftUp => -1
      case RightUp => -1
      case Down => 1
      case LeftDown => 1
      case RightDown => 1
      case _ => 0
    }
    /** The column step: left is towards column 0. */
    function DY(): int {
      match this
      case Left => -1
      case LeftUp => -1
      case LeftDown => -1
      case Right => 1
      case RightUp => 1
      case RightDown => 1
      case _ => 0
    }
  }

  /** The directions in the order `Direction::iter()` yields them. */
  const Directions: seq<Direction> := [Left, Right, Up, Down, LeftUp, RightUp, LeftDown, RightDown]

  const RemainingWord: string := "MAS"

  /** `v` moved `i` steps by `delta` (which is -1, 0 or 1). */
  function Offset(v: int, delta: int, i: int): int {
    if delta > 0 then v + i else if delta < 0 then v - i else v
  }

  predicate InGrid(data: seq<seq<char>>, x: int, y: int) {
    0 <= x < |data| && 0 <= y < |data[x]|
  }

  /** The cell `k` steps from (x, y) in direction `d` is in the grid and holds `c`. */
  predicate CellIs(data: seq<seq<char>>, x: int, y: int, d: Direction, k: int, c: char) {
    var cx := Offset(x, d.DX(), k);
    var cy := Offset(y, d.DY(), k);
    InGrid(data, cx, cy) && data[cx][cy] == c
  }

  /** The three cells beyond (x, y) in direction `d` lie in the grid and spell `MAS`. */
  predicate MasAt(data: seq<seq<char>>, x: int, y: int, d: Direction) {
    CellIs(data, x, y, d, 1, 'M') && CellIs(data, x, y, d, 2, 'A') && CellIs(data, x, y, d, 3, 'S')
  }

  /** `a - b` on `usize`: `None` when it underflows, which panics. */
  function SubUsize(a: nat, b: nat): (r: Option<nat>)
    ensures r.Some? <==> a >= b
    ensures r.Some? ==> r.value + b == a
  {
    if a >= b then Some(a - b) else None
  }

  /** `v < a - b` with the subtraction checked. */
  function BelowDiff(v: int, a: nat, b: nat): (r: Option<bool>)
    ensures r.None? <==> a < b
    ensures r.Some? ==> (r.value <==> v + b < a)
  {
    match SubUsize(a, b)
    case None => None
    case Some(m) => Some(v < m)
  }

  /** The per-direction guard of whether three more cells fit, with the word
      length 3 and the row length of row `x`, evaluated left to right with
      `&&` short-circuiting; `None` when a subtraction it evaluates underflows. */
  function Guard(data: seq<seq<char>>, x: int, y: int, d: Direction): Option<bool>
    requires 0 <= x < |data|
  {
    var n := |RemainingWord|;
    match d
    case Left => Some(y >= n)
    case Right => BelowDiff(y, |data[x]|, n)
    case Up => Some(x >= n)
    case Down => BelowDiff(x, |data|, n)
    case LeftUp => Some(x >= n && y >= n)
    case RightUp => if x >= n then BelowDiff(y, |data[x]|, n) else Some(false)
    case LeftDown =>
      (match BelowDiff(x, |data|, n)
       case None => None
       case Some(b) => Some(b && y >= n))
    case RightDown =>
      (match BelowDiff(x, |data|, n)
       case None => None
       case Some(b) => if b then BelowDiff(y, |data[x]|, n) else Some(false))
  }

  /** The three cells beyond (x, y) in direction `d` are all in the grid. */
  predicate ReadOk(data: seq<seq<char>>, x: int, y: int, d: Direction) {
    forall k :: 1 <= k <= 3 ==> InGrid(data, Offset(x, d.DX(), k), Offset(y, d.DY(), k))
  }

  /** The search in direction `d` panics: its guard underflows, or the guard
      holds and one of the cells it then reads is outside its row. */
  predicate Crash(data: seq<seq<char>>, x: int, y: int, d: Direction)
    requires 0 <= x < |data|
  {
    Guard(data, x, y, d).None? || (Guard(data, x, y, d) == Some(true) && !ReadOk(data, x, y, d))
  }

  /** The search in direction `d` reports the word: the guard holds and the
      three cells read `MAS`. */
  predicate Found(data: seq<seq<char>>, x: int, y: int, d: Direction)
    requires 0 <= x < |data|
  {
    Guard(data, x, y, d) == Some(true) && MasAt(data, x, y, d)
  }

  /** On a rectangular grid a guard that does not underflow holds exactly
      when all three cells beyond (x, y) are inside the grid. */
  lemma FitsIffInGrid(data: seq<seq<char>>, x: int, y: int, d: Direction)
    requires Rectangular(data) && InGrid(data, x, y) && Guard(data, x, y, d).Some?
    ensures Guard(data, x, y, d) == Some(true) <==> ReadOk(data, x, y, d)
  {
    if Guard(data, x, y, d) != Some(true) {
      assert !InGrid(data, Offset(x, d.DX(), 3), Offset(y, d.DY(), 3));
    }
  }

  /** On a rectangular grid the search finds the word exactly where it is,
      and a grid of at least three rows and columns never panics. */
  lemma RectangularSearch(data: seq<seq<char>>, x: int, y: int, d: Direction)
    requires Rectangular(data) && InGrid(data, x, y)
    ensures Found(data, x, y, d) <==> MasAt(data, x, y, d)
    ensures |data| >= 3 && |data[x]| >= 3 ==> !Crash(data, x, y, d)
  {
    if Guard(data, x, y, d).Some? {
      FitsIffInGrid(data, x, y, d);
    } else {
      assert !InGrid(data, Offset(x, d.DX(), 3), Offset(y, d.DY(), 3));
    }
  }

  /** A ragged grid where the diagonal reads `MAS` but the guard, taken from
      the length of the `X`'s own row, rules it out: the search finds nothing
      there and does not panic. */
  lemma RaggedDiagonalMissed()
    ensures var g := ["X..", ".M..", "..A.", "...S"];
      MasAt(g, 0, 0, RightDown) && !Found(g, 0, 0, RightDown) && !Crash(g, 0, 0, RightDown)
  {
    var g := ["X..", ".M..", "..A.", "...S"];
    assert g[1][1] == 'M' && g[2][2] == 'A' && g[3][3] == 'S';
  }

  /** A one-row grid with an `X` panics: the downward guard
      `x < data.len() - 3` underflows. */
  lemma OneRowPanics()
    ensures Crashes(["XMAS"])
  {
    assert Crash(["XMAS"], 0, 0, Directions[3]);
    assert CrashesAt(["XMAS"], 0, 0);
  }

  /** Three characters read beyond (x, y) come from cells of the grid, and
      spell the remaining word exactly when those cells read `MAS`. */
  lemma WordSpells(data: seq<seq<char>>, x: int, y: int, d: Direction, word: string)
    requires |word| == 3 && forall k :: 0 <= k < 3 ==> CellIs(data, x, y, d, k + 1, word[k])
    ensures ReadOk(data, x, y, d)
    ensures word == RemainingWord <==> MasAt(data, x, y, d)
  {
    assert CellIs(data, x, y, d, 1, word[0]) && CellIs(data, x, y, d, 2, word[1]) && CellIs(data, x, y, d, 3, word[2]);
  }

  /** One direction of `search_directions_for_remaining_word`: if three more
      cells fit, their characters are collected, and the result says whether
      they read `MAS`; `None` when the thread panics. */
  method FindWord(data: seq<seq<char>>, x: int, y: int, d: Direction) returns (r: Option<bool>)
    requires InGrid(data, x, y)
    ensures r.None? <==> Crash(data, x, y, d)
    ensures r == Some(true) <==> Found(data, x, y, d)
  {
    var fits := Guard(data, x, y, d);
    if fits.None? {
      return None;
    }
    var word: string := "";
    if fits.value {
      for i := 1 to |RemainingWord| + 1
        invariant |word| == i - 1
        invariant forall k :: 0 <= k < |word| ==> CellIs(data, x, y, d, k + 1, word[k])
      {
        var cx, cy := Offset(x, d.DX(), i), Offset(y, d.DY(), i);
        if !InGrid(data, cx, cy) {
          return None;
        }
        word := word + [data[cx][cy]];
      }
      WordSpells(data, x, y, d, word);
    }
    r := Some(word == RemainingWord);
  }

  /** How many of the directions `ds` find the word from (x, y). */
  function HitsAmong(data: seq<seq<char>>, x: int, y: int, ds: seq<Direction>): nat
    requires 0 <= x < |data|
  {
    if ds == [] then 0
    else HitsAmong(data, x, y, ds[..|ds| - 1]) + (if Found(data, x, y, ds[|ds| - 1]) then 1 else 0)
  }

  function Hits(data: seq<seq<char>>, x: int, y: int): nat
    requires 0 <= x < |data|
  {
    HitsAmong(data, x, y, Directions)
  }

  /** Some direction's search from (x, y) panics. */
  predicate CrashesAt(data: seq<seq<char>>, x: int, y: int)
    requires 0 <= x < |data|
  {
    exists i :: 0 <= i < |Directions| && Crash(data, x, y, Directions[i])
  }

  /** The search from some `X` cell of the grid panics. */
  predicate Crashes(data: seq<seq<char>>) {
    exists x, y :: 0 <= x < |data| && 0 <= y < |data[x]| && data[x][y] == 'X' && CrashesAt(data, x, y)
  }

  /** A rectangular grid of at least three rows and columns never panics. */
  lemma RectangularNeverCrashes(data: seq<seq<char>>)
    requires Rectangular(data) && |data| >= 3 && |data[0]| >= 3
    ensures !Crashes(data)
  {
    forall x, y, i | InGrid(data, x, y) && 0 <= i < |Directions|
      ensures !Crash(data, x, y, Directions[i])
    {
      RectangularSearch(data, x, y, Directions[i]);
    }
  }

  /** The words found from the first `n` cells of row `x`, over its `X` cells. */
  function RowCount(data: seq<seq<char>>, x: nat, n: nat): nat
    requires x < |data| && n <= |data[x]|
  {
    if n == 0 then 0 else RowCount(data, x, n - 1) + (if data[x][n - 1] == 'X' then Hits(data, x, n - 1) else 0)
  }

  /** The words found from the `X` cells of the first `m` rows. */
  function GridCount(data: seq<seq<char>>, m: nat): nat
    requires m <= |data|
  {
    if m == 0 then 0 else GridCount(data, m - 1) + RowCount(data, m - 1, |data[m - 1]|)
  }

  function XmasCount(data: seq<seq<char>>): nat {
    GridCount(data, |data|)
  }

  /** The number of `X` cells in the first `n` cells of row `x`, and in the first `m` rows. */
  function XRow(data: seq<seq<char>>, x: nat, n: nat): nat
    requires x < |data| && n <= |data[x]|
  {
    if n == 0 then 0 else XRow(data, x, n - 1) + (if data[x][n - 1] == 'X' then 1 else 0)
  }

  function XGrid(data: seq<seq<char>>, m: nat): nat
    requires m <= |data|
  {
    if m == 0 then 0 else XGrid(data, m - 1) + XRow(data, m - 1, |data[m - 1]|)
  }

  /** Each `X` looks in eight directions and adds at most one per direction. */
  lemma {:induction false} HitsAmongBound(data: seq<seq<char>>, x: int, y: int, ds: seq<Direction>)
    requires 0 <= x < |data|
    ensures HitsAmong(data, x, y, ds) <= |ds|
  {
    if ds != [] {
      HitsAmongBound(data, x, y, ds[..|ds| - 1]);
    }
  }

  lemma {:induction false} RowCountBound(data: seq<seq<char>>, x: nat, n: nat)
    requires x < |data| && n <= |data[x]|
    ensures RowCount(data, x, n) <= 8 * XRow(data, x, n)
  {
    if n > 0 {
      RowCountBound(data, x, n - 1);
      HitsAmongBound(data, x, n - 1, Directions);
    }
  }

  lemma {:induction false} GridCountBound(data: seq<seq<char>>, m: nat)
    requires m <= |data|
    ensures GridCount(data, m) <= 8 * XGrid(data, m)
  {
    if m > 0 {
      GridCountBound(data, m - 1);
      RowCountBound(data, m - 1, |data[m - 1]|);
    }
  }

  /** The count is at most eight per `X` cell. */
  lemma XmasCountBound(data: seq<seq<char>>)
    ensures XmasCount(data) <= 8 * XGrid(data, |data|)
  {
    GridCountBound(data, |data|);
  }

  /** A grid without `X` adds nothing. */
  lemma NoXNoCount(data: seq<seq<char>>)
    requires forall x, y :: InGrid(data, x, y) ==> data[x][y] != 'X'
    ensures XmasCount(data) == 0
  {
    NoXRows(data, |data|);
    XmasCountBound(data);
  }

  lemma {:induction false} NoXRows(data: seq<seq<char>>, m: nat)
    requires m <= |data|
    requires forall x, y :: InGrid(data, x, y) ==> data[x][y] != 'X'
    ensures XGrid(data, m) == 0
  {
    if m > 0 {
      NoXRows(data, m - 1);
      NoXRow(data, m - 1, |data[m - 1]|);
    }
  }

  lemma {:induction false} NoXRow(data: seq<seq<char>>, x: nat, n: nat)
    requires x < |data| && n <= |data[x]|
    requires forall y :: 0 <= y < |data[x]| ==> data[x][y] != 'X'
    ensures XRow(data, x, n) == 0
  {
    if n > 0 {
      NoXRow(data, x, n - 1);
    }
  }

  /** The word search with its shared counter (`XMAS_COUNT`). The counter is
      only ever increased, so a second search adds to the first one's total. */
  class WordSearch {
    var count: nat

    constructor ()
      ensures count == 0
    {
      count := 0;
    }

    /** `search_directions_for_remaining_word`, the eight directions one
        after another; `false` when one of them panics. The threads of the
        source add to the counter as they go; here the hits are added once
        all eight directions are done, which differs only when a thread
        panics, and then the program aborts without reading the counter. */
    method SearchDirections(data: seq<seq<char>>, x: int, y: int) returns (ok: bool)
      requires InGrid(data, x, y)
      modifies this
      ensures ok <==> !CrashesAt(data, x, y)
      ensures ok ==> count == old(count) + Hits(data, x, y)
      ensures !ok ==> count == old(count)
    {
      var hits := 0;
      for i := 0 to |Directions|
        invariant count == old(count)
        invariant hits == HitsAmong(data, x, y, Directions[..i])
        invariant forall j :: 0 <= j < i ==> !Crash(data, x, y, Directions[j])
      {
        var found := FindWord(data, x, y, Directions[i]);
        if found.None? {
          return false;
        }
        assert Directions[..i + 1][..i] == Directions[..i];
        if found.value {
          hits := hits + 1;
        }
      }
      assert Directions[..|Directions|] == Directions;
      count := count + hits;
      return true;
    }

    /** `get_xmas_count_from_matrix`: every `X` cell in row-major order; the
        result is the counter after the search, or `None` when a search
        panics. */
    method GetXmasCount(data: seq<seq<char>>) returns (r: Option<nat>)
      modifies this
      ensures r.None? <==> Crashes(data)
      ensures r.Some? ==> count == old(count) + XmasCount(data) && r.value == count
      ensures r.None? ==> old(count) <= count
    {
      for x := 0 to |data|
        invariant old(count) <= count
        invariant count == old(count) + GridCount(data, x)
        invariant forall a, b :: 0 <= a < x && InGrid(data, a, b) && data[a][b] == 'X' ==> !CrashesAt(data, a, b)
      {
        for y := 0 to |data[x]|
          invariant count == old(count) + GridCount(data, x) + RowCount(data, x, y)
          invariant forall a, b :: 0 <= a < x && InGrid(data, a, b) && data[a][b] == 'X' ==> !CrashesAt(data, a, b)
          invariant forall b :: 0 <= b < y && data[x][b] == 'X' ==> !CrashesAt(data, x, b)
        {
          if data[x][y] == 'X' {
            var ok := SearchDirections(data, x, y);
            if !ok {
              return None;
            }
          }
        }
      }
      r := Some(count);
    }
  }
}
