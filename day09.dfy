/** Day 9: a disk map of digits expands into a block layout (file ids and
    free cells), which is compacted either block by block or file by file,
    and scored by a checksum. */
module Day9 {
  import opened Text

  /** A cell of a layout: a file id, or -1 for free space. */
  type Cell = v: int | v >= -1

  const Free: Cell := -1

  /** `n` copies of `v`. */
  function Repeat(v: Cell, n: nat): (r: seq<Cell>)
    ensures |r| == n && forall k :: 0 <= k < n ==> r[k] == v
  {
    seq(n, _ => v)
  }

  /** What digit `i` of a disk map emits: file `i / 2` at even positions,
      free space at odd ones. */
  function CellFor(i: nat): Cell {
    if i % 2 == 0 then i / 2 else Free
  }

  function Expansion(line: string): seq<Cell>
    requires AllDigits(line)
  {
    if line == [] then []
    else Expansion(line[..|line| - 1]) + Repeat(CellFor(|line| - 1), DigitValue(line[|line| - 1]))
  }

  function DigitSum(line: string): nat
    requires AllDigits(line)
  {
    if line == [] then 0 else DigitSum(line[..|line| - 1]) + DigitValue(line[|line| - 1])
  }

  /** One line of `generate_file_system_layouts_from_disk_maps`; `None` for a
      character that is not a digit (the `unwrap` there aborts). */
  method ExpandLine(line: string) returns (r: Option<seq<Cell>>)
    ensures r.Some? <==> AllDigits(line)
    ensures r.Some? ==> r.value == Expansion(line)
  {
    var layout: seq<Cell> := [];
    var fileId: nat := 0;
    for i := 0 to |line|
      invariant AllDigits(line[..i])
      invariant layout == Expansion(line[..i])
      invariant fileId == (i + 1) / 2
    {
      if !IsDigit(line[i]) {
        return None;
      }
      var value := DigitValue(line[i]);
      ghost var before := layout;
      if i % 2 == 0 {
        for j := 0 to value
          invariant layout == before + Repeat(fileId, j)
        {
          layout := layout + [fileId];
        }
        fileId := fileId + 1;
      } else {
        for j := 0 to value
          invariant layout == before + Repeat(Free, j)
        {
          layout := layout + [Free];
        }
      }
      assert line[..i + 1][..i] == line[..i];
    }
    assert line[..|line|] == line;
    return Some(layout);
  }

  /** `generate_file_system_layouts_from_disk_maps`: one layout per line, file ids
      restarting at 0 on each line. */
  method GenerateLayouts(lines: seq<string>) returns (r: Option<seq<seq<Cell>>>)
    ensures r.Some? <==> forall x :: 0 <= x < |lines| ==> AllDigits(lines[x])
    ensures r.Some? ==> |r.value| == |lines| && forall x :: 0 <= x < |lines| ==> r.value[x] == Expansion(lines[x])
  {
    var layouts: seq<seq<Cell>> := [];
    for x := 0 to |lines|
      invariant |layouts| == x
      invariant forall y :: 0 <= y < x ==> AllDigits(lines[y]) && layouts[y] == Expansion(lines[y])
    {
      var layout := ExpandLine(lines[x]);
      if layout.None? {
        return None;
      }
      layouts := layouts + [layout.value];
    }
    return Some(layouts);
  }

  /** The layout is as long as the digits add up to. */
  lemma {:induction false} ExpansionLength(line: string)
    requires AllDigits(line)
    ensures |Expansion(line)| == DigitSum(line)
  {
    if line != [] {
      ExpansionLength(line[..|line| - 1]);
    }
  }

  /** File ids never exceed the id of the last even position, and they read
      non-decreasing from left to right. */
  lemma {:induction false} ExpansionOrdered(line: string)
    requires AllDigits(line)
    ensures forall k :: 0 <= k < |Expansion(line)| ==> 2 * Expansion(line)[k] < |line| + 1
    ensures forall a, b :: 0 <= a < b < |Expansion(line)| && Expansion(line)[a] != Free && Expansion(line)[b] != Free ==>
      Expansion(line)[a] <= Expansion(line)[b]
  {
    if line != [] {
      var n := |line| - 1;
      var front := Expansion(line[..n]);
      var block := Repeat(CellFor(n), DigitValue(line[n]));
      var e := Expansion(line);
      ExpansionOrdered(line[..n]);
      assert e == front + block;
      forall k | 0 <= k < |e| ensures 2 * e[k] < |line| + 1 {
        if k < |front| {
          assert e[k] == front[k];
        } else {
          assert e[k] == block[k - |front|];
        }
      }
      forall a, b | 0 <= a < b < |e| && e[a] != Free && e[b] != Free ensures e[a] <= e[b] {
        if b < |front| {
          assert e[a] == front[a] && e[b] == front[b];
        } else if a >= |front| {
          assert e[a] == block[a - |front|] && e[b] == block[b - |front|];
        } else {
          assert e[a] == front[a] && e[b] == block[b - |front|];
        }
      }
    }
  }

  /** The cells `s .. s + n - 1` exist and are all free. */
  predicate FreeRun(layout: seq<Cell>, s: int, n: nat) {
    0 <= s && s + n <= |layout| && forall k :: s <= k < s + n ==> layout[k] == Free
  }

  /** A free run of length `n` starting at `s`, and none starts further left. */
  predicate LeftmostRun(layout: seq<Cell>, s: int, n: nat) {
    FreeRun(layout, s, n) && forall t :: 0 <= t < s ==> !FreeRun(layout, t, n)
  }

  /** The indices `s .. s + n - 1`. */
  function Range(s: nat, n: nat): (r: seq<nat>)
    ensures |r| == n && forall k :: 0 <= k < n ==> r[k] == s + k
  {
    seq(n, k => s + k)
  }

  /** `get_first_size_of_file_freespace_chunk`: the indices of the first run of
      `size` free cells, found by a left-to-right scan that restarts its
      run at every file cell. A size of 0 is never matched: the length is
      compared only after a free cell has been added. */
  method FirstFreeChunk(layout: seq<Cell>, size: nat) returns (r: Option<seq<nat>>)
    ensures size == 0 ==> r.None?
    ensures r.Some? ==> exists s :: LeftmostRun(layout, s, size) && r.value == Range(s, size)
    ensures r.None? ==> forall s :: !FreeRun(layout, s, size) || size == 0
  {
    var free: seq<nat> := [];
    for i := 0 to |layout|
      invariant |free| <= i
      invariant size > 0 ==> |free| < size
      invariant free == Range(i - |free|, |free|)
      invariant FreeRun(layout, i - |free|, |free|)
      invariant i - |free| == 0 || layout[i - |free| - 1] != Free
      invariant size > 0 ==> forall t :: 0 <= t && t + size <= i ==> !FreeRun(layout, t, size)
    {
      if layout[i] > -1 {
        free := [];
      } else {
        free := free + [i];
        if |free| == size {
          assert LeftmostRun(layout, i + 1 - size, size);
          return Some(free);
        }
      }
      assert size > 0 ==> !FreeRun(layout, i + 1 - size, size) by {
        if size > 0 && 0 <= i + 1 - size {
          if layout[i] > -1 {
            assert layout[i] != Free;
          } else {
            assert layout[i - |free|] != Free;
          }
        }
      }
    }
    return None;
  }

  /** `iter().position(|&c| c == -1)`. */
  function FirstFree(layout: seq<Cell>): (r: Option<nat>)
    ensures r.None? <==> Free !in layout
    ensures r.Some? ==> r.value < |layout| && layout[r.value] == Free && forall m :: 0 <= m < r.value ==> layout[m] != Free
  {
    if layout == [] then None
    else if layout[0] == Free then Some(0)
    else match FirstFree(layout[1..])
      case None => None
      case Some(k) => Some(k + 1)
  }

  /** Every cell up to and including `k` holds a file. */
  predicate FilesThrough(layout: seq<Cell>, k: int) {
    forall m :: 0 <= m <= k && m < |layout| ==> layout[m] != Free
  }

  /** No file cell follows a free cell. */
  predicate Compacted(layout: seq<Cell>) {
    forall a, b :: 0 <= a < b < |layout| && layout[a] == Free ==> layout[b] == Free
  }

  lemma SwapPreserves(s: seq<Cell>, i: nat, j: nat)
    requires i < |s| && j < |s|
    ensures multiset(s[i := s[j]][j := s[i]]) == multiset(s)
  {
  }

  /** The scan of `generate_fragmented_drive_layouts` over one layout with
      `i` cells still to visit, the working copy at `f`: cell `i - 1` is
      judged on the original layout; the scan stops at once when the
      leftmost free cell of the copy is at or right of it, swaps it into that
      free cell when it held a file, and goes on to the next cell on the
      left. `None` when the copy has no free cell (the `unwrap` aborts). */
  function FragmentFrom(layout: seq<Cell>, f: seq<Cell>, i: nat): (r: Option<seq<Cell>>)
    requires i <= |layout| == |f|
    ensures r.Some? ==> |r.value| == |f|
    decreases i
  {
    if i == 0 then Some(f)
    else match FirstFree(f)
      case None => None
      case Some(ff) =>
        if ff >= i - 1 then Some(f)
        else if layout[i - 1] > -1 then FragmentFrom(layout, f[i - 1 := f[ff]][ff := f[i - 1]], i - 1)
        else FragmentFrom(layout, f, i - 1)
  }

  /** One layout compacted block by block: the scan from the right end of a
      fresh copy. */
  function Fragmented(layout: seq<Cell>): (r: Option<seq<Cell>>)
    ensures r.Some? ==> |r.value| == |layout|
  {
    FragmentFrom(layout, layout, |layout|)
  }

  /** From any state the loop invariant admits, the scan aborts exactly when
      it has cells left and the copy has no free cell, and otherwise ends in
      a compacted permutation of the layout. */
  lemma {:induction false} FragmentFromSpec(layout: seq<Cell>, f: seq<Cell>, i: nat)
    requires i <= |layout| == |f| && multiset(f) == multiset(layout) && Fragmenting(layout, f, i)
    ensures FragmentFrom(layout, f, i).None? <==> i > 0 && Free !in f
    ensures FragmentFrom(layout, f, i).Some? ==>
      multiset(FragmentFrom(layout, f, i).value) == multiset(layout) && Compacted(FragmentFrom(layout, f, i).value)
    decreases i
  {
    if i == 0 {
      assert Compacted(f);
    } else if FirstFree(f).Some? {
      var ff := FirstFree(f).value;
      if ff >= i - 1 {
        FragmentDone(layout, f, i - 1, ff);
      } else if layout[i - 1] > -1 {
        var g := f[i - 1 := f[ff]][ff := f[i - 1]];
        assert FragmentFrom(layout, f, i) == FragmentFrom(layout, g, i - 1);
        FragmentSwapStep(layout, f, i - 1, ff);
        FragmentFromSpec(layout, g, i - 1);
      } else {
        assert FragmentFrom(layout, f, i) == FragmentFrom(layout, f, i - 1);
        FragmentSkip(layout, f, i - 1, ff);
        FragmentFromSpec(layout, f, i - 1);
      }
    }
  }

  /** Block-by-block compaction aborts exactly when a non-empty layout has
      no free cell, and otherwise keeps the cells and leaves the free space
      at the end. */
  lemma FragmentedSpec(layout: seq<Cell>)
    ensures Fragmented(layout).None? <==> |layout| > 0 && Free !in layout
    ensures Fragmented(layout).Some? ==>
      multiset(Fragmented(layout).value) == multiset(layout) && Compacted(Fragmented(layout).value)
  {
    FragmentFromSpec(layout, layout, |layout|);
  }

  /** The scan never touches the cells left of a free cell `p` when every
      cell left of `p` holds a file: swaps happen only at or right of the
      leftmost free cell. */
  lemma {:induction false} FragmentFromKeepsPrefix(layout: seq<Cell>, f: seq<Cell>, i: nat, p: nat)
    requires i <= |layout| == |f| && p <= |f| && FilesThrough(f, p - 1)
    requires FragmentFrom(layout, f, i).Some?
    ensures FragmentFrom(layout, f, i).value[..p] == f[..p]
    decreases i
  {
    if i > 0 {
      var ff := FirstFree(f).value;
      if ff < i - 1 {
        assert ff >= p;
        if layout[i - 1] > -1 {
          var g := f[i - 1 := f[ff]][ff := f[i - 1]];
          assert g[..p] == f[..p];
          FragmentFromKeepsPrefix(layout, g, i - 1, p);
        } else {
          FragmentFromKeepsPrefix(layout, f, i - 1, p);
        }
      }
    }
  }

  /** The file cells before the first free cell stay where they are. */
  lemma FragmentedKeepsPrefix(layout: seq<Cell>, p: nat)
    requires p <= |layout| && Fragmented(layout).Some?
    requires forall k :: 0 <= k < p ==> layout[k] != Free
    ensures Fragmented(layout).value[..p] == layout[..p]
  {
    FragmentFromKeepsPrefix(layout, layout, |layout|, p);
  }

  /** One layout of `generate_fragmented_drive_layouts`: from the right, each
      cell that held a file in the original layout is swapped with the
      leftmost free cell of the copy while that lies strictly left of it. */
  method Fragment(layout: seq<Cell>) returns (r: Option<seq<Cell>>)
    ensures r == Fragmented(layout)
    ensures r.None? <==> |layout| > 0 && Free !in layout
    ensures r.Some? ==> multiset(r.value) == multiset(layout) && Compacted(r.value)
  {
    FragmentedSpec(layout);
    var f := layout;
    var i := |layout|;
    while i > 0
      invariant 0 <= i <= |layout| == |f|
      invariant FragmentFrom(layout, f, i) == Fragmented(layout)
    {
      var value := layout[i - 1];
      var first := FirstFree(f);
      if first.None? {
        return None;
      }
      var ff := first.value;
      if ff >= i - 1 {
        return Some(f);
      }
      if value > -1 {
        f := f[i - 1 := f[ff]][ff := f[i - 1]];
      }
      i := i - 1;
    }
    return Some(f);
  }

  /** The loop invariant of `Fragment`, with `i` cells still to visit: the
      visited cells are free, and each other cell is as in the layout or
      ends a prefix of file cells. */
  predicate Fragmenting(layout: seq<Cell>, f: seq<Cell>, i: nat)
    requires i <= |layout| == |f|
  {
    (forall k :: i <= k < |f| ==> f[k] == Free)
    && (forall k :: 0 <= k < i ==> f[k] == layout[k] || FilesThrough(f, k))
  }

  /** The scan stops once the leftmost free cell is at or right of cell `i`:
      the drive is compacted. */
  lemma FragmentDone(layout: seq<Cell>, f: seq<Cell>, i: nat, ff: nat)
    requires i < |layout| == |f| && Fragmenting(layout, f, i + 1)
    requires FirstFree(f) == Some(ff) && ff >= i
    ensures Compacted(f)
  {
    forall a, b | 0 <= a < b < |f| && f[a] == Free ensures f[b] == Free {
      assert a >= ff;
    }
  }

  /** A file cell `i` swapped with the leftmost free cell `ff < i`. */
  lemma FragmentSwap(layout: seq<Cell>, f: seq<Cell>, i: nat, ff: nat)
    requires i < |layout| == |f| && Fragmenting(layout, f, i + 1)
    requires FirstFree(f) == Some(ff) && ff < i && layout[i] > -1
    ensures Fragmenting(layout, f[i := f[ff]][ff := f[i]], i)
  {
    assert !FilesThrough(f, i);
    var g := f[i := f[ff]][ff := f[i]];
    assert FilesThrough(g, ff);
    forall k | 0 <= k < i ensures g[k] == layout[k] || FilesThrough(g, k) {
      if k != ff && f[k] != layout[k] {
        assert FilesThrough(f, k);
      }
    }
  }

  /** A free cell `i` is left where it is. */
  /** The swap keeps the cells and the scan's invariant, and leaves cell `i` free. */
  lemma FragmentSwapStep(layout: seq<Cell>, f: seq<Cell>, i: nat, ff: nat)
    requires i < |layout| == |f| && Fragmenting(layout, f, i + 1) && multiset(f) == multiset(layout)
    requires FirstFree(f) == Some(ff) && ff < i && layout[i] > -1
    ensures var g := f[i := f[ff]][ff := f[i]];
      Fragmenting(layout, g, i) && multiset(g) == multiset(layout) && g[i] == Free
  {
    SwapPreserves(f, i, ff);
    FragmentSwap(layout, f, i, ff);
  }

  lemma FragmentSkip(layout: seq<Cell>, f: seq<Cell>, i: nat, ff: nat)
    requires i < |layout| == |f| && Fragmenting(layout, f, i + 1)
    requires FirstFree(f) == Some(ff) && ff < i && layout[i] == -1
    ensures Fragmenting(layout, f, i)
  {
    assert !FilesThrough(f, i);
  }

  /** `generate_fragmented_drive_layouts`: every layout compacted block by block. */
  method GenerateFragmented(layouts: seq<seq<Cell>>) returns (r: Option<seq<seq<Cell>>>)
    ensures r.None? <==> exists x :: 0 <= x < |layouts| && |layouts[x]| > 0 && Free !in layouts[x]
    ensures r.Some? ==> |r.value| == |layouts|
    ensures r.Some? ==> forall x :: 0 <= x < |layouts| ==>
      Fragmented(layouts[x]) == Some(r.value[x]) && multiset(r.value[x]) == multiset(layouts[x]) && Compacted(r.value[x])
  {
    var result: seq<seq<Cell>> := [];
    for x := 0 to |layouts|
      invariant |result| == x
      invariant forall y :: 0 <= y < x ==>
        Fragmented(layouts[y]) == Some(result[y]) && multiset(result[y]) == multiset(layouts[y]) && Compacted(result[y])
      invariant forall y :: 0 <= y < x ==> !(|layouts[y]| > 0 && Free !in layouts[y])
    {
      var f := Fragment(layouts[x]);
      if f.None? {
        return None;
      }
      result := result + [f.value];
    }
    return Some(result);
  }

  /** The largest cell, or 0 when no cell is larger. */
  function MaxFileId(layout: seq<Cell>): (m: nat)
    ensures forall k :: 0 <= k < |layout| ==> layout[k] <= m
    ensures m == 0 || m in layout
  {
    if layout == [] then 0
    else
      var n := |layout| - 1;
      var front := MaxFileId(layout[..n]);
      assert forall k :: 0 <= k < n ==> layout[..n][k] == layout[k];
      assert front in layout[..n] ==> front in layout;
      if layout[n] > front then layout[n] else front
  }

  /** Two bounds that are 0 or a cell of the layout are the same bound. */
  lemma MaxFileIdUnique(layout: seq<Cell>, m: nat)
    requires forall k :: 0 <= k < |layout| ==> layout[k] <= m
    requires m == 0 || m in layout
    ensures m == MaxFileId(layout)
  {
  }

  /** `get_max_file_id_from_layout`. */
  method GetMaxFileId(layout: seq<Cell>) returns (max: nat)
    ensures max == MaxFileId(layout)
  {
    max := 0;
    for k := 0 to |layout|
      invariant forall m :: 0 <= m < k ==> layout[m] <= max
      invariant max == 0 || max in layout[..k]
    {
      if layout[k] > max {
        max := layout[k];
      }
      assert layout[..k + 1] == layout[..k] + [layout[k]];
    }
    assert layout[..|layout|] == layout;
    MaxFileIdUnique(layout, max);
  }

  /** The indices holding `id`, ascending (`enumerate().filter_map(...)`). */
  function Occurrences(layout: seq<Cell>, id: Cell): (r: seq<nat>)
    ensures forall k :: 0 <= k < |r| ==> r[k] < |layout| && layout[r[k]] == id
    ensures forall a, b :: 0 <= a < b < |r| ==> r[a] < r[b]
    ensures forall k :: 0 <= k < |layout| && layout[k] == id ==> k in r
  {
    if layout == [] then []
    else
      var n := |layout| - 1;
      var front := Occurrences(layout[..n], id);
      assert forall k :: 0 <= k < n ==> layout[..n][k] == layout[k];
      front + (if layout[n] == id then [n] else [])
  }

  /** Moving file `id` is possible: it has cells, and a free run of its
      length starts left of its first cell. */
  predicate CanMove(layout: seq<Cell>, id: nat) {
    var file := Occurrences(layout, id);
    |file| > 0 && exists s :: FreeRun(layout, s, |file|) && s < file[0]
  }

  /** `layout` with file `id` moved into the cells `s .. s + n - 1`: those hold
      `id`, the file's old cells are free, and everything else is as before. */
  function Relocated(layout: seq<Cell>, id: nat, s: int, n: nat): (r: seq<Cell>)
    ensures |r| == |layout|
  {
    seq(|layout|, k requires 0 <= k < |layout| => if s <= k < s + n then id else if layout[k] == id then Free else layout[k])
  }

  /** At most one free run of a given length is the leftmost. */
  lemma LeftmostRunUnique(layout: seq<Cell>, s: int, t: int, n: nat)
    requires LeftmostRun(layout, s, n) && LeftmostRun(layout, t, n)
    ensures s == t
  {
  }

  /** The layout after the pass for file `id`: the file moved into the
      leftmost free run of its length when that run lies before the file,
      and unchanged otherwise. */
  ghost function Moved(layout: seq<Cell>, id: nat): seq<Cell> {
    var file := Occurrences(layout, id);
    var n := |file|;
    if n > 0 && exists s :: LeftmostRun(layout, s, n) && s + n <= file[0] then
      var s :| LeftmostRun(layout, s, n) && s + n <= file[0];
      Relocated(layout, id, s, n)
    else layout
  }

  /** The passes for the files `i - 1` down to 0. */
  ghost function MovedBelow(layout: seq<Cell>, i: nat): seq<Cell>
    decreases i
  {
    if i == 0 then layout else MovedBelow(Moved(layout, i - 1), i - 1)
  }

  /** The layout compacted file by file: the passes for every file from the
      largest id down to 0. */
  ghost function Contiguous(layout: seq<Cell>): seq<Cell> {
    MovedBelow(layout, MaxFileId(layout) + 1)
  }

  /** The passes below `i + 1` are the pass for file `i`, then those below `i`. */
  lemma MovedBelowStep(layout: seq<Cell>, i: nat)
    ensures MovedBelow(layout, i + 1) == MovedBelow(Moved(layout, i), i)
  {
  }

  /** One pass of `generate_file_contiguous_fragmented_drive_layouts`'s loop:
      file `id` moves into the leftmost free run of its length if that run
      starts before the file does; it lands wholly left of its old cells. */
  method MoveFile(layout: seq<Cell>, id: nat) returns (r: seq<Cell>)
    ensures multiset(r) == multiset(layout)
    ensures !CanMove(layout, id) ==> r == layout
    ensures CanMove(layout, id) ==> exists s :: (LeftmostRun(layout, s, |Occurrences(layout, id)|)
      && s + |Occurrences(layout, id)| <= Occurrences(layout, id)[0]
      && r == Relocated(layout, id, s, |Occurrences(layout, id)|))
    ensures r == Moved(layout, id)
  {
    var file := Occurrences(layout, id);
    var n := |file|;
    var freespace := FirstFreeChunk(layout, n);
    if freespace.None? {
      assert !CanMove(layout, id);
      return layout;
    }
    var s := freespace.value[0];
    assert LeftmostRun(layout, s, n);
    if freespace.value[0] > file[0] {
      assert !CanMove(layout, id) by {
        forall t | FreeRun(layout, t, n) ensures t >= file[0] {
        }
      }
      return layout;
    }
    assert layout[file[0]] != Free;
    assert CanMove(layout, id);
    r := SwapFile(layout, id, file, s);
    ghost var t :| LeftmostRun(layout, t, n) && t + n <= file[0] && Moved(layout, id) == Relocated(layout, id, t, n);
    LeftmostRunUnique(layout, s, t, n);
  }

  /** The swaps `file[j] <-> s + j`, one per cell of the file. */
  method SwapFile(layout: seq<Cell>, id: nat, file: seq<nat>, s: nat) returns (r: seq<Cell>)
    requires |file| > 0
    requires forall m :: 0 <= m < |file| ==> file[m] < |layout| && layout[file[m]] == id
    requires forall a, b :: 0 <= a < b < |file| ==> file[a] < file[b]
    requires forall k :: 0 <= k < |layout| && layout[k] == id ==> k in file
    requires FreeRun(layout, s, |file|) && s + |file| <= file[0]
    ensures multiset(r) == multiset(layout)
    ensures r == Relocated(layout, id, s, |file|)
  {
    var n := |file|;
    r := layout;
    for j := 0 to n
      invariant |r| == |layout| && multiset(r) == multiset(layout)
      invariant Swapped(layout, id, file, s, r, j)
    {
      SwapPreserves(r, file[j], s + j);
      SwapStep(layout, id, file, s, r, j);
      r := r[file[j] := r[s + j]][s + j := r[file[j]]];
    }
    SwappedIsRelocated(layout, id, file, s, r);
  }

  /** The first `j` cells of the file have been swapped into the first `j`
      cells of the run, and nothing else has moved. */
  predicate Swapped(layout: seq<Cell>, id: nat, file: seq<nat>, s: nat, r: seq<Cell>, j: nat) {
    && j <= |file| && |r| == |layout| && s + |file| <= |r|
    && (forall m :: 0 <= m < |file| ==> file[m] < |r|)
    && (forall m :: 0 <= m < j ==> r[file[m]] == Free)
    && (forall m :: j <= m < |file| ==> r[file[m]] == id)
    && (forall k :: s <= k < s + j ==> r[k] == id)
    && (forall k :: s + j <= k < s + |file| ==> r[k] == Free)
    && (forall k :: 0 <= k < |r| && !(s <= k < s + |file|) && layout[k] != id ==> r[k] == layout[k])
  }

  lemma SwapStep(layout: seq<Cell>, id: nat, file: seq<nat>, s: nat, r: seq<Cell>, j: nat)
    requires forall m :: 0 <= m < |file| ==> file[m] < |layout| && layout[file[m]] == id
    requires forall a, b :: 0 <= a < b < |file| ==> file[a] < file[b]
    requires 0 < |file| && s + |file| <= file[0]
    requires j < |file| && Swapped(layout, id, file, s, r, j)
    ensures Swapped(layout, id, file, s, r[file[j] := r[s + j]][s + j := r[file[j]]], j + 1)
  {
    assert file[0] <= file[j] by {
      if j > 0 {
        assert file[0] < file[j];
      }
    }
  }

  /** The layout after all the swaps is the relocated one. */
  lemma SwappedIsRelocated(layout: seq<Cell>, id: nat, file: seq<nat>, s: nat, r: seq<Cell>)
    requires forall k :: 0 <= k < |layout| && layout[k] == id ==> k in file
    requires Swapped(layout, id, file, s, r, |file|)
    ensures r == Relocated(layout, id, s, |file|)
  {
    forall k | 0 <= k < |r| ensures r[k] == Relocated(layout, id, s, |file|)[k] {
      if layout[k] == id && !(s <= k < s + |file|) {
        var m :| 0 <= m < |file| && file[m] == k;
      }
    }
  }

  /** One layout of `generate_file_contiguous_fragmented_drive_layouts`: the
      files from the largest id down to 0, each moved at most once. */
  method CompactContiguous(layout: seq<Cell>) returns (r: seq<Cell>)
    ensures r == Contiguous(layout)
    ensures multiset(r) == multiset(layout)
  {
    var numFiles := GetMaxFileId(layout);
    r := layout;
    var i: nat := numFiles + 1;
    while i > 0
      invariant MovedBelow(r, i) == MovedBelow(layout, numFiles + 1)
      invariant multiset(r) == multiset(layout)
    {
      ghost var before := r;
      i := i - 1;
      r := MoveFile(r, i);
      MovedBelowStep(before, i);
    }
  }

  /** `generate_file_contiguous_fragmented_drive_layouts` over all layouts. */
  method GenerateContiguous(layouts: seq<seq<Cell>>) returns (r: seq<seq<Cell>>)
    ensures |r| == |layouts|
    ensures forall x :: 0 <= x < |layouts| ==> r[x] == Contiguous(layouts[x]) && multiset(r[x]) == multiset(layouts[x])
  {
    r := [];
    for x := 0 to |layouts|
      invariant |r| == x
      invariant forall y :: 0 <= y < x ==> r[y] == Contiguous(layouts[y]) && multiset(r[y]) == multiset(layouts[y])
    {
      var c := CompactContiguous(layouts[x]);
      r := r + [c];
    }
  }

  /** The sum of `i * id` over the file cells. */
  function ChecksumOf(layout: seq<Cell>): nat {
    if layout == [] then 0
    else
      var n := |layout| - 1;
      ChecksumOf(layout[..n]) + (if layout[n] == Free then 0 else n * layout[n])
  }

  /** The checksum of one layout, free cells skipped. */
  method Checksum(layout: seq<Cell>) returns (sum: nat)
    ensures sum == ChecksumOf(layout)
  {
    sum := 0;
    for i := 0 to |layout|
      invariant sum == ChecksumOf(layout[..i])
    {
      assert layout[..i + 1][..i] == layout[..i];
      if layout[i] != Free {
        sum := sum + layout[i] * i;
      }
    }
    assert layout[..|layout|] == layout;
  }

  /** `calculate_fragmented_layouts_checksums`. */
  method CalculateChecksums(layouts: seq<seq<Cell>>) returns (r: seq<nat>)
    ensures |r| == |layouts| && forall x :: 0 <= x < |layouts| ==> r[x] == ChecksumOf(layouts[x])
  {
    r := [];
    for x := 0 to |layouts|
      invariant |r| == x && forall y :: 0 <= y < x ==> r[y] == ChecksumOf(layouts[y])
    {
      var c := Checksum(layouts[x]);
      r := r + [c];
    }
  }

  /** Free cells add nothing: an all-free layout scores 0. */
  lemma {:induction false} AllFreeChecksum(layout: seq<Cell>)
    requires forall k :: 0 <= k < |layout| ==> layout[k] == Free
    ensures ChecksumOf(layout) == 0
  {
    if layout != [] {
      AllFreeChecksum(layout[..|layout| - 1]);
    }
  }

  /** Free cells at the end leave the checksum as it was. */
  lemma {:induction false} FreeTailChecksum(layout: seq<Cell>, n: nat)
    ensures ChecksumOf(layout + Repeat(Free, n)) == ChecksumOf(layout)
  {
    if n == 0 {
      assert layout + Repeat(Free, n) == layout;
    } else {
      FreeTailChecksum(layout, n - 1);
      var t := layout + Repeat(Free, n);
      assert t[|t| - 1] == Free;
      assert t[..|t| - 1] == layout + Repeat(Free, n - 1);
      assert ChecksumOf(t) == ChecksumOf(t[..|t| - 1]);
    }
  }

  /** `main`, part two: expand, compact file by file, checksum. */
  method Solve(lines: seq<string>) returns (r: Option<seq<nat>>)
    ensures r.Some? <==> forall x :: 0 <= x < |lines| ==> AllDigits(lines[x])
    ensures r.Some? ==> |r.value| == |lines|
    ensures r.Some? ==> forall x :: 0 <= x < |lines| ==>
      r.value[x] == ChecksumOf(Contiguous(Expansion(lines[x])))
  {
    var layouts := GenerateLayouts(lines);
    if layouts.None? {
      return None;
    }
    var compacted := GenerateContiguous(layouts.value);
    var checksums := CalculateChecksums(compacted);
    return Some(checksums);
  }
}
