/** Day 1: two columns of location ids, paired after sorting (distance) and
    weighted by how often each left id occurs on the right (similarity). */
module Day1 {
  import opened Text

  /** The two numbers a line contributes: its first two words parsed as `i32`.
      `None` when a word does not parse or there are fewer than two words
      (the program aborts on either). */
  function ParseLine(line: string): Option<(int, int)> {
    match ParseAll(TrimAll(Words(line)), I32)
    case None => None
    case Some(ns) => if |ns| < 2 then None else Some((ns[0], ns[1]))
  }

  /** A line yields a pair exactly when it has at least two words and every
      word parses; the pair is then its first two numbers. */
  lemma ParseLineSpec(line: string)
    ensures ParseLine(line).Some? ==> (|Words(line)| >= 2
      && ParseInt(Trim(Words(line)[0]), I32) == Some(ParseLine(line).value.0)
      && ParseInt(Trim(Words(line)[1]), I32) == Some(ParseLine(line).value.1))
    ensures ParseLine(line).None? <==> (|Words(line)| < 2
      || exists k :: 0 <= k < |Words(line)| && ParseInt(Trim(Words(line)[k]), I32).None?)
  {
    var ws := Words(line);
    if ParseAll(TrimAll(ws), I32).None? {
      var k :| 0 <= k < |ws| && ParseInt(TrimAll(ws)[k], I32).None?;
    }
  }

  /** The reading loop: each line's first number goes to the left column and
      its second to the right column. */
  method ReadColumns(lines: seq<string>) returns (r: Option<(seq<int>, seq<int>)>)
    ensures r.Some? <==> forall x :: 0 <= x < |lines| ==> ParseLine(lines[x]).Some?
    ensures r.Some? ==> |r.value.0| == |lines| && |r.value.1| == |lines|
    ensures r.Some? ==> forall x :: 0 <= x < |lines| ==> ParseLine(lines[x]) == Some((r.value.0[x], r.value.1[x]))
  {
    var left: seq<int> := [];
    var right: seq<int> := [];
    for x := 0 to |lines|
      invariant |left| == x && |right| == x
      invariant forall y :: 0 <= y < x ==> ParseLine(lines[y]) == Some((left[y], right[y]))
    {
      var pair := ParseLine(lines[x]);
      if pair.None? {
        assert !ParseLine(lines[x]).Some?;
        return None;
      }
      left := left + [pair.value.0];
      right := right + [pair.value.1];
    }
    return Some((left, right));
  }

  predicate SortedAsc(s: seq<int>) {
    forall i, j :: 0 <= i < j < |s| ==> s[i] <= s[j]
  }

  function Insert(x: int, s: seq<int>): (r: seq<int>)
    ensures |r| == |s| + 1 && multiset(r) == multiset(s) + multiset{x}
  {
    if s == [] || x <= s[0] then [x] + s
    else
      assert s == [s[0]] + s[1..];
      [s[0]] + Insert(x, s[1..])
  }

  lemma {:induction false} InsertSorted(x: int, s: seq<int>)
    requires SortedAsc(s)
    ensures SortedAsc(Insert(x, s))
  {
    if s != [] && x > s[0] {
      InsertSorted(x, s[1..]);
      InsertAbove(x, s);
      ConsSorted(s[0], Insert(x, s[1..]));
    }
  }

  /** Every element of `Insert(x, s[1..])` is at least `s[0]`, when `x` is. */
  lemma InsertAbove(x: int, s: seq<int>)
    requires SortedAsc(s) && s != [] && x > s[0]
    ensures forall j :: 0 <= j < |Insert(x, s[1..])| ==> s[0] <= Insert(x, s[1..])[j]
  {
    var t := Insert(x, s[1..]);
    forall j | 0 <= j < |t| ensures s[0] <= t[j] {
      assert t[j] in multiset(s[1..]) + multiset{x};
      if t[j] != x {
        assert t[j] in multiset(s[1..]);
        var k :| 0 <= k < |s[1..]| && s[1..][k] == t[j];
        assert s[1..][k] == s[k + 1];
      }
    }
  }

  /** A sorted sequence stays sorted behind an element no larger than any of it. */
  lemma ConsSorted(h: int, t: seq<int>)
    requires SortedAsc(t)
    requires forall j :: 0 <= j < |t| ==> h <= t[j]
    ensures SortedAsc([h] + t)
  {
    var r := [h] + t;
    forall i, j | 0 <= i < j < |r| ensures r[i] <= r[j] {
      assert r[j] == t[j - 1];
      if i > 0 { assert r[i] == t[i - 1]; }
    }
  }

  /** `Vec::sort`: the ascending rearrangement of the column. */
  function Sort(s: seq<int>): (r: seq<int>)
    ensures |r| == |s| && SortedAsc(r) && multiset(r) == multiset(s)
  {
    if s == [] then []
    else
      assert s == [s[0]] + s[1..];
      InsertSorted(s[0], Sort(s[1..]));
      Insert(s[0], Sort(s[1..]))
  }

  lemma SortedTail(s: seq<int>)
    requires s != [] && SortedAsc(s)
    ensures SortedAsc(s[1..])
  {
    forall i, j | 0 <= i < j < |s| - 1 ensures s[1..][i] <= s[1..][j] {
      assert s[1..][i] == s[i + 1] && s[1..][j] == s[j + 1];
    }
  }

  lemma HeadIsLeast(s: seq<int>, x: int)
    requires SortedAsc(s) && x in multiset(s)
    ensures s != [] && s[0] <= x
  {
    var k :| 0 <= k < |s| && s[k] == x;
    if k > 0 {
      assert s[0] <= s[k];
    }
  }

  /** There is only one ascending arrangement of a multiset, so the sorted
      column does not depend on the order the ids were read in. */
  lemma {:induction false} SortedUnique(a: seq<int>, b: seq<int>)
    requires SortedAsc(a) && SortedAsc(b) && multiset(a) == multiset(b)
    ensures a == b
  {
    if a == [] {
      assert |multiset(b)| == 0;
    } else {
      assert a[0] in multiset(a);
      HeadIsLeast(b, a[0]);
      assert b[0] in multiset(b);
      HeadIsLeast(a, b[0]);
      assert a == [a[0]] + a[1..];
      assert b == [b[0]] + b[1..];
      assert a[0] == b[0];
      assert multiset(a[1..]) == multiset(b[1..]) by {
        assert multiset(a) == multiset{a[0]} + multiset(a[1..]);
        assert multiset(b) == multiset{b[0]} + multiset(b[1..]);
        assert multiset(a[1..]) == multiset(a) - multiset{a[0]};
        assert multiset(b[1..]) == multiset(b) - multiset{b[0]};
      }
      SortedTail(a);
      SortedTail(b);
      SortedUnique(a[1..], b[1..]);
    }
  }

  function Abs(d: int): nat {
    if d < 0 then -d else d
  }

  /** The total distance of two equally long columns paired position by position. */
  function Distance(a: seq<int>, b: seq<int>): int
    requires |a| == |b|
  {
    if a == [] then 0
    else Distance(a[..|a| - 1], b[..|b| - 1]) + Abs(a[|a| - 1] - b[|b| - 1])
  }

  /** `Distance` extended by one more pair. */
  lemma DistanceSnoc(a: seq<int>, b: seq<int>, i: nat)
    requires |a| == |b| && i < |a|
    ensures Distance(a[..i + 1], b[..i + 1]) == Distance(a[..i], b[..i]) + Abs(a[i] - b[i])
  {
    assert a[..i + 1][..i] == a[..i] && b[..i + 1][..i] == b[..i];
  }

  /** The distance loop: the per-pair distances are collected, then added up. */
  method TotalDistance(a: seq<int>, b: seq<int>) returns (total: int)
    requires |a| == |b|
    ensures total == Distance(Sort(a), Sort(b))
  {
    var sa := Sort(a);
    var sb := Sort(b);
    var diffs: seq<int> := [];
    for i := 0 to |sa|
      invariant |diffs| == i
      invariant forall k :: 0 <= k < i ==> diffs[k] == Abs(sa[k] - sb[k])
    {
      if sa[i] > sb[i] {
        diffs := diffs + [sa[i] - sb[i]];
      } else {
        diffs := diffs + [sb[i] - sa[i]];
      }
    }
    total := 0;
    for i := 0 to |diffs|
      invariant total == Distance(sa[..i], sb[..i])
    {
      DistanceSnoc(sa, sb, i);
      total := total + diffs[i];
    }
    assert sa[..|sa|] == sa && sb[..|sb|] == sb;
  }

  lemma {:induction false} DistanceNonNegative(a: seq<int>, b: seq<int>)
    requires |a| == |b|
    ensures Distance(a, b) >= 0
  {
    if a != [] {
      DistanceNonNegative(a[..|a| - 1], b[..|b| - 1]);
    }
  }

  /** Swapping the two columns pairs the same numbers the other way round. */
  lemma {:induction false} DistanceSymmetric(a: seq<int>, b: seq<int>)
    requires |a| == |b|
    ensures Distance(a, b) == Distance(b, a)
  {
    if a != [] {
      DistanceSymmetric(a[..|a| - 1], b[..|b| - 1]);
    }
  }

  /** The distance is zero exactly when the columns agree position by position. */
  lemma {:induction false} DistanceZeroIff(a: seq<int>, b: seq<int>)
    requires |a| == |b|
    ensures Distance(a, b) == 0 <==> a == b
  {
    if a != [] {
      var n := |a| - 1;
      DistanceZeroIff(a[..n], b[..n]);
      DistanceNonNegative(a[..n], b[..n]);
      assert a == a[..n] + [a[n]];
      assert b == b[..n] + [b[n]];
    }
  }

  /** The answer depends only on which ids each column holds, not on the
      order of the lines. */
  lemma DistanceOrderIndependent(a: seq<int>, b: seq<int>, a': seq<int>, b': seq<int>)
    requires |a| == |b|
    requires multiset(a) == multiset(a') && multiset(b) == multiset(b')
    ensures |a'| == |b'|
    ensures Distance(Sort(a), Sort(b)) == Distance(Sort(a'), Sort(b'))
  {
    assert |a'| == |b'| by {
      assert |multiset(a)| == |multiset(a')| && |multiset(b)| == |multiset(b')|;
    }
    SortedUnique(Sort(a), Sort(a'));
    SortedUnique(Sort(b), Sort(b'));
  }

  /** Swapping the two columns of the input leaves the distance unchanged. */
  lemma DistanceColumnSwap(a: seq<int>, b: seq<int>)
    requires |a| == |b|
    ensures |Sort(a)| == |Sort(b)|
    ensures Distance(Sort(a), Sort(b)) == Distance(Sort(b), Sort(a))
  {
    assert |multiset(Sort(a))| == |multiset(a)| && |multiset(Sort(b))| == |multiset(b)|;
    DistanceSymmetric(Sort(a), Sort(b));
  }

  /** The similarity score: every left id times the number of its occurrences
      on the right. */
  function Similarity(a: seq<int>, b: seq<int>): int {
    if a == [] then 0
    else Similarity(a[..|a| - 1], b) + a[|a| - 1] * multiset(b)[a[|a| - 1]]
  }

  lemma SimilaritySnoc(a: seq<int>, b: seq<int>, i: nat)
    requires i < |a|
    ensures Similarity(a[..i + 1], b) == Similarity(a[..i], b) + a[i] * multiset(b)[a[i]]
  {
    assert a[..i + 1][..i] == a[..i];
  }

  /** `list_b.iter().filter(|&&n| n == num).count()`. */
  method CountOf(b: seq<int>, x: int) returns (n: nat)
    ensures n == multiset(b)[x]
  {
    n := 0;
    for j := 0 to |b|
      invariant n == multiset(b[..j])[x]
    {
      assert b[..j + 1] == b[..j] + [b[j]];
      if b[j] == x {
        n := n + 1;
      }
    }
    assert b[..|b|] == b;
  }

  /** The similarity loops, run on the columns as `main` has them by then
      (sorted in place by part 1): one (id, count) score per left id, then
      the sum of their products. `SimilaritySorted` shows the sorting does
      not change the score. */
  method TotalSimilarity(listA: seq<int>, listB: seq<int>) returns (total: int)
    ensures total == Similarity(listA, listB)
  {
    var scores: seq<(int, nat)> := [];
    for i := 0 to |listA|
      invariant |scores| == i
      invariant forall k :: 0 <= k < i ==> scores[k] == (listA[k], multiset(listB)[listA[k]])
    {
      var count := CountOf(listB, listA[i]);
      scores := scores + [(listA[i], count)];
    }
    total := 0;
    for i := 0 to |scores|
      invariant total == Similarity(listA[..i], listB)
    {
      ScoreStep(listA, listB, scores[i], i, total);
      total := total + scores[i].0 * scores[i].1;
    }
    assert listA[..|listA|] == listA;
  }

  /** One score added to the running total. */
  lemma ScoreStep(a: seq<int>, b: seq<int>, score: (int, nat), i: nat, total: int)
    requires i < |a| && score == (a[i], multiset(b)[a[i]])
    requires total == Similarity(a[..i], b)
    ensures total + score.0 * score.1 == Similarity(a[..i + 1], b)
  {
    SimilaritySnoc(a, b, i);
  }

  /** Sorting either column leaves the similarity unchanged. */
  lemma SimilaritySorted(a: seq<int>, b: seq<int>)
    ensures Similarity(Sort(a), Sort(b)) == Similarity(a, b)
  {
    SimilarityPermutation(Sort(a), a, Sort(b));
    SimilarityRightOrder(a, Sort(b), b);
  }

  lemma {:induction false} SimilarityAppend(a1: seq<int>, a2: seq<int>, b: seq<int>)
    ensures Similarity(a1 + a2, b) == Similarity(a1, b) + Similarity(a2, b)
    decreases |a2|
  {
    if a2 != [] {
      var n := |a2| - 1;
      assert (a1 + a2)[..|a1 + a2| - 1] == a1 + a2[..n];
      SimilarityAppend(a1, a2[..n], b);
    } else {
      assert a1 + a2 == a1;
    }
  }

  /** Reordering the left column leaves the similarity unchanged. */
  lemma {:induction false} SimilarityPermutation(a: seq<int>, a': seq<int>, b: seq<int>)
    requires multiset(a) == multiset(a')
    ensures Similarity(a, b) == Similarity(a', b)
    decreases |a|
  {
    if a != [] {
      var n := |a| - 1;
      var x := a[n];
      assert a == a[..n] + [x];
      assert x in multiset(a');
      var j :| 0 <= j < |a'| && a'[j] == x;
      assert a' == a'[..j] + [x] + a'[j + 1..];
      var others := a'[..j] + a'[j + 1..];
      assert multiset(a) == multiset(a[..n]) + multiset{x};
      assert multiset(a') == multiset(a'[..j]) + multiset{x} + multiset(a'[j + 1..]);
      assert multiset(others) == multiset(a'[..j]) + multiset(a'[j + 1..]);
      assert multiset(a[..n]) == multiset(a) - multiset{x};
      assert multiset(others) == multiset(a') - multiset{x};
      SimilarityPermutation(a[..n], others, b);
      SimilarityAppend(a'[..j], a'[j + 1..], b);
      SimilarityAppend(a'[..j] + [x], a'[j + 1..], b);
      SimilarityAppend(a'[..j], [x], b);
      assert Similarity([x], b) == x * multiset(b)[x] by {
        assert [x][..0] == [];
      }
    } else {
      assert |multiset(a')| == 0;
    }
  }

  /** The similarity sees the right column only through its counts. */
  lemma SimilarityRightOrder(a: seq<int>, b: seq<int>, b': seq<int>)
    requires multiset(b) == multiset(b')
    ensures Similarity(a, b) == Similarity(a, b')
  {
  }

  /** A left id that does not occur in the right column contributes nothing. */
  lemma SimilarityAbsent(a: seq<int>, x: int, b: seq<int>)
    requires x !in b
    ensures Similarity(a + [x], b) == Similarity(a, b)
  {
    assert (a + [x])[..|a|] == a;
    assert multiset(b)[x] == 0;
  }
}
