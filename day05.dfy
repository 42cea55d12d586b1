/** Day 5: page-ordering rules `a|b` and comma-separated updates; an update
    is kept when the rules that mention two of its pages see them in order,
    and the answer adds up the middle pages of the kept updates. */
module Day5 {
  import opened Text

  /** A line split on `sep`, every piece parsed as `i32` (no trimming). */
  function ParseList(line: string, sep: char): Option<seq<int>> {
    ParseAll(Split(line, [sep]), I32)
  }

  /** `ParseList` with separator `sep`, as a function of the line. */
  function ListReader(sep: char): string -> Option<seq<int>> {
    line => ParseList(line, sep)
  }

  /** Every line of a block parsed with `ParseList`; `None` (the program
      aborts) as soon as one line does not parse. */
  function ParseLines(lines: seq<string>, sep: char): (r: Option<seq<seq<int>>>)
    ensures r.Some? <==> forall x :: 0 <= x < |lines| ==> ParseList(lines[x], sep).Some?
    ensures r.Some? ==> |r.value| == |lines|
    ensures r.Some? ==> forall x :: 0 <= x < |lines| ==> ParseList(lines[x], sep) == Some(r.value[x])
  {
    EachLineParses(ListReader(sep), lines);
    EachLine(ListReader(sep), lines)
  }

  method ParseBlock(lines: seq<string>, sep: char) returns (r: Option<seq<seq<int>>>)
    ensures r == ParseLines(lines, sep)
  {
    var parsed: seq<seq<int>> := [];
    for x := 0 to |lines|
      invariant EachLine(ListReader(sep), lines[..x]) == Some(parsed)
    {
      var numbers := ParseList(lines[x], sep);
      EachLineStep(ListReader(sep), lines, x);
      if numbers.None? {
        r := None;
        EachLineStaysNone(ListReader(sep), lines, x + 1);
        return;
      }
      parsed := parsed + [numbers.value];
    }
    assert lines[..|lines|] == lines;
    r := Some(parsed);
  }

  /** `get_ordering_rules_from_ordering_rule_pairs`. */
  method GetOrderingRules(lines: seq<string>) returns (r: Option<seq<seq<int>>>)
    ensures r == ParseLines(lines, '|')
  {
    r := ParseBlock(lines, '|');
  }

  /** `get_updates_as_i32_vec`. */
  method GetUpdates(lines: seq<string>) returns (r: Option<seq<seq<int>>>)
    ensures r == ParseLines(lines, ',')
  {
    r := ParseBlock(lines, ',');
  }

  /** Writing non-negative `i32` numbers with a non-digit separator and
      parsing the line gives the numbers back, in order: `"a|b"` is `[a, b]`
      and `"p1,p2,..."` is `[p1, p2, ...]`. */
  lemma ListRoundTrip(ns: seq<nat>, sep: char)
    requires |ns| >= 1 && !IsDigit(sep)
    requires forall k :: 0 <= k < |ns| ==> ns[k] <= I32.Max()
    ensures ParseList(Join(Decimals(ns), [sep]), sep) == Some(ns)
  {
    DecimalsSplitJoin(ns, sep);
    ParseAllDecimals(ns, I32);
  }

  /** `update.iter().position(|&page| page == p)`: the first index holding `p`. */
  function Position(update: seq<int>, p: int): (r: Option<nat>)
    ensures r.Some? ==> r.value < |update| && update[r.value] == p
    ensures r.Some? ==> forall k :: 0 <= k < r.value ==> update[k] != p
    ensures r.None? <==> p !in update
  {
    if update == [] then None
    else if update[0] == p then Some(0)
    else match Position(update[1..], p)
      case None => None
      case Some(k) => Some(k + 1)
  }

  /** Every rule has two pages, so reading `rule[0]` and `rule[1]` never
      aborts. */
  predicate WellFormed(rules: seq<seq<int>>) {
    forall i :: 0 <= i < |rules| ==> |rules[i]| >= 2
  }

  /** Both pages of the rule occur in the update. */
  predicate Applies(update: seq<int>, rule: seq<int>)
    requires |rule| >= 2
  {
    rule[0] in update && rule[1] in update
  }

  /** The rule applies, and its left page first occurs after its right page. */
  predicate Violates(update: seq<int>, rule: seq<int>)
    requires |rule| >= 2
  {
    Applies(update, rule) && Position(update, rule[0]).value > Position(update, rule[1]).value
  }

  /** The rule loop gets past `rule` on `update`: a two-page rule that is
      not violated, or a shorter one on an empty update, whose `position`
      closures never run and so never read `rule[0]` or `rule[1]`. */
  predicate Clears(update: seq<int>, rule: seq<int>) {
    if |rule| >= 2 then !Violates(update, rule) else update == []
  }

  /** The rule loop gets past rules `i` to `j - 1`. */
  predicate Passes(update: seq<int>, rules: seq<seq<int>>, i: nat, j: nat)
    requires i <= j <= |rules|
  {
    forall k :: i <= k < j ==> Clears(update, rules[k])
  }

  /** Some rule from `i` on has two pages and applies. */
  predicate SomeApplies(update: seq<int>, rules: seq<seq<int>>, i: nat)
    requires i <= |rules|
  {
    exists k :: i <= k < |rules| && |rules[k]| >= 2 && Applies(update, rules[k])
  }

  /** An update is good when some rule applies and no rule is violated. */
  predicate UpdateGood(update: seq<int>, rules: seq<seq<int>>)
    requires WellFormed(rules)
  {
    (exists i :: 0 <= i < |rules| && Applies(update, rules[i]))
    && forall i :: 0 <= i < |rules| ==> !Violates(update, rules[i])
  }

  /** The rule loop from rule `i` with the flag at `good`: `None` when it
      reaches a rule with fewer than two pages on a non-empty update (the
      `position` closures index `rule[0]` or `rule[1]` and abort), `false`
      at the first violated rule (the `break`), otherwise the flag at the
      end. On an empty update no closure runs, so a short rule is passed
      like a rule that does not apply. */
  function JudgeFrom(update: seq<int>, rules: seq<seq<int>>, i: nat, good: bool): Option<bool>
    requires i <= |rules|
    decreases |rules| - i
  {
    if i == |rules| then Some(good)
    else if |rules[i]| < 2 then (if update == [] then JudgeFrom(update, rules, i + 1, good) else None)
    else if !Applies(update, rules[i]) then JudgeFrom(update, rules, i + 1, good)
    else if Violates(update, rules[i]) then Some(false)
    else JudgeFrom(update, rules, i + 1, true)
  }

  /** The verdict on one update: the rule loop from the first rule, the flag
      starting `false`. */
  function Judge(update: seq<int>, rules: seq<seq<int>>): Option<bool> {
    JudgeFrom(update, rules, 0, false)
  }

  /** The loop from rule `i` aborts exactly when it gets to a short rule
      with a non-empty update, and calls the update good exactly when it
      gets past every rule with the flag set or set on the way. */
  lemma {:induction false} JudgeFromSpec(update: seq<int>, rules: seq<seq<int>>, i: nat, good: bool)
    requires i <= |rules|
    ensures JudgeFrom(update, rules, i, good).None? <==>
      update != [] && exists j :: i <= j < |rules| && Passes(update, rules, i, j) && |rules[j]| < 2
    ensures JudgeFrom(update, rules, i, good) == Some(true) <==>
      Passes(update, rules, i, |rules|) && (good || SomeApplies(update, rules, i))
    decreases |rules| - i
  {
    if update == [] {
      EmptyUpdateFrom(rules, i, good);
      forall k | i <= k < |rules|
        ensures Clears(update, rules[k]) && !(|rules[k]| >= 2 && Applies(update, rules[k]))
      {
      }
    } else if i < |rules| {
      SomeAppliesShift(update, rules, i);
      if |rules[i]| < 2 {
        assert Passes(update, rules, i, i);
        PassesBlocked(update, rules, i);
      } else if !Applies(update, rules[i]) || !Violates(update, rules[i]) {
        JudgeFromSpec(update, rules, i + 1, if Applies(update, rules[i]) then true else good);
        PassesShift(update, rules, i);
      } else {
        PassesBlocked(update, rules, i);
      }
    }
  }

  /** A rule the loop gets past can be dropped from the front of a run. */
  lemma PassesShift(update: seq<int>, rules: seq<seq<int>>, i: nat)
    requires i < |rules| && Clears(update, rules[i])
    ensures forall j :: i + 1 <= j <= |rules| ==>
      (Passes(update, rules, i, j) <==> Passes(update, rules, i + 1, j))
  {
    forall j | i + 1 <= j <= |rules|
      ensures Passes(update, rules, i, j) <==> Passes(update, rules, i + 1, j)
    {
    }
  }

  /** No run through a rule the loop does not get past passes. */
  lemma PassesBlocked(update: seq<int>, rules: seq<seq<int>>, i: nat)
    requires i < |rules| && !Clears(update, rules[i])
    ensures forall j :: i < j <= |rules| ==> !Passes(update, rules, i, j)
  {
  }

  /** Some rule from `i` on applies iff rule `i` does or one after it. */
  lemma SomeAppliesShift(update: seq<int>, rules: seq<seq<int>>, i: nat)
    requires i < |rules|
    ensures SomeApplies(update, rules, i) <==>
      (|rules[i]| >= 2 && Applies(update, rules[i])) || SomeApplies(update, rules, i + 1)
  {
    if SomeApplies(update, rules, i) {
      var k :| i <= k < |rules| && |rules[k]| >= 2 && Applies(update, rules[k]);
      assert k > i ==> SomeApplies(update, rules, i + 1);
    }
    if SomeApplies(update, rules, i + 1) {
      var k :| i + 1 <= k < |rules| && |rules[k]| >= 2 && Applies(update, rules[k]);
      assert SomeApplies(update, rules, i);
    }
    if |rules[i]| >= 2 && Applies(update, rules[i]) {
      assert SomeApplies(update, rules, i);
    }
  }

  /** With two pages in every rule the verdict never aborts, and it is
      `UpdateGood`. */
  lemma JudgeWellFormed(update: seq<int>, rules: seq<seq<int>>)
    requires WellFormed(rules)
    ensures Judge(update, rules) == Some(UpdateGood(update, rules))
  {
    JudgeFromSpec(update, rules, 0, false);
    assert Judge(update, rules).Some?;
    if SomeApplies(update, rules, 0) {
      var k :| 0 <= k < |rules| && |rules[k]| >= 2 && Applies(update, rules[k]);
    }
    if exists i :: 0 <= i < |rules| && Applies(update, rules[i]) {
      var k :| 0 <= k < |rules| && Applies(update, rules[k]);
      assert SomeApplies(update, rules, 0);
    }
    assert Passes(update, rules, 0, |rules|) <==> forall i :: 0 <= i < |rules| ==> !Violates(update, rules[i]);
    assert Judge(update, rules).value <==> UpdateGood(update, rules);
  }

  /** The inner loop of `get_indexes_of_correctly_sorted_updates`: the flag is
      set by each applicable rule in order and cleared, with an early exit, by
      the first violated one; a rule with fewer than two pages aborts once a
      `position` closure reads it, which happens only on a non-empty update. */
  method IsUpdateGood(update: seq<int>, rules: seq<seq<int>>) returns (r: Option<bool>)
    ensures r == Judge(update, rules)
  {
    var isUpdateGood := false;
    var i := 0;
    while i < |rules|
      invariant 0 <= i <= |rules|
      invariant JudgeFrom(update, rules, i, isUpdateGood) == Judge(update, rules)
    {
      var rule := rules[i];
      if |rule| < 2 {
        // The `position` closures read the rule only once they see a page.
        if update != [] {
          return None;
        }
        i := i + 1;
        continue;
      }
      var leftPos := Position(update, rule[0]);
      var rightPos := Position(update, rule[1]);
      if leftPos.None? || rightPos.None? {
        i := i + 1;
        continue;
      }
      if leftPos.value > rightPos.value {
        return Some(false);
      }
      isUpdateGood := true;
      i := i + 1;
    }
    r := Some(isUpdateGood);
  }

  /** The kept updates, in input order; `None` once some update's rule loop
      aborts. */
  function KeptUpdates(updates: seq<seq<int>>, rules: seq<seq<int>>): Option<seq<seq<int>>> {
    if updates == [] then Some([])
    else
      var n := |updates| - 1;
      match (KeptUpdates(updates[..n], rules), Judge(updates[n], rules))
      case (None, _) => None
      case (_, None) => None
      case (Some(kept), Some(good)) => Some(kept + if good then [updates[n]] else [])
  }

  lemma {:induction false} KeptStaysNone(updates: seq<seq<int>>, rules: seq<seq<int>>, i: nat)
    requires i <= |updates| && KeptUpdates(updates[..i], rules).None?
    ensures KeptUpdates(updates, rules).None?
    decreases |updates| - i
  {
    if i < |updates| {
      assert updates[..i + 1][..i] == updates[..i];
      KeptStaysNone(updates, rules, i + 1);
    } else {
      assert updates[..i] == updates;
    }
  }

  /** The outer loop: each update judged on its own, good ones copied out. */
  method GetValidUpdates(updates: seq<seq<int>>, rules: seq<seq<int>>) returns (validUpdates: Option<seq<seq<int>>>)
    ensures validUpdates == KeptUpdates(updates, rules)
  {
    var kept := [];
    for x := 0 to |updates|
      invariant KeptUpdates(updates[..x], rules) == Some(kept)
    {
      var good := IsUpdateGood(updates[x], rules);
      assert updates[..x + 1][..x] == updates[..x];
      assert updates[..x + 1][x] == updates[x];
      if good.None? {
        KeptStaysNone(updates, rules, x + 1);
        return None;
      }
      assert KeptUpdates(updates[..x + 1], rules) == Some(kept + if good.value then [updates[x]] else []);
      if good.value {
        kept := kept + [updates[x]];
      } else {
        assert kept + [] == kept;
      }
    }
    assert updates[..|updates|] == updates;
    validUpdates := Some(kept);
  }

  /** The filter aborts exactly when the rule loop of some update aborts. */
  lemma {:induction false} KeptUpdatesFails(updates: seq<seq<int>>, rules: seq<seq<int>>)
    ensures KeptUpdates(updates, rules).None? <==> exists k :: 0 <= k < |updates| && Judge(updates[k], rules).None?
  {
    if updates != [] {
      var n := |updates| - 1;
      KeptUpdatesFails(updates[..n], rules);
      assert forall k :: 0 <= k < n ==> updates[..n][k] == updates[k];
    }
  }

  /** With two pages in every rule the filter never aborts. */
  lemma KeptUpdatesWellFormed(updates: seq<seq<int>>, rules: seq<seq<int>>)
    requires WellFormed(rules)
    ensures KeptUpdates(updates, rules).Some?
  {
    KeptUpdatesFails(updates, rules);
    forall k | 0 <= k < |updates| ensures Judge(updates[k], rules).Some? {
      JudgeWellFormed(updates[k], rules);
    }
  }

  /** Filtering keeps input order: it distributes over concatenation. */
  lemma {:induction false} KeptUpdatesAppend(a: seq<seq<int>>, b: seq<seq<int>>, rules: seq<seq<int>>)
    ensures KeptUpdates(a + b, rules) ==
      match (KeptUpdates(a, rules), KeptUpdates(b, rules))
      case (Some(x), Some(y)) => Some(x + y)
      case _ => None
    decreases |b|
  {
    if b == [] {
      assert a + b == a;
      if KeptUpdates(a, rules).Some? {
        assert KeptUpdates(a, rules).value + [] == KeptUpdates(a, rules).value;
      }
    } else {
      var n := |b| - 1;
      assert (a + b)[..|a + b| - 1] == a + b[..n];
      assert (a + b)[|a + b| - 1] == b[n];
      KeptUpdatesAppend(a, b[..n], rules);
      match (KeptUpdates(a, rules), KeptUpdates(b[..n], rules), Judge(b[n], rules))
      case (Some(x), Some(y), Some(g)) =>
        assert KeptUpdates(a + b, rules) == Some(x + y + if g then [b[n]] else []);
        assert x + y + (if g then [b[n]] else []) == x + (y + if g then [b[n]] else []);
      case _ =>
    }
  }

  /** Every kept update is one of the updates, is judged good, and is
      non-empty. */
  lemma {:induction false} KeptUpdatesGood(updates: seq<seq<int>>, rules: seq<seq<int>>)
    requires KeptUpdates(updates, rules).Some?
    ensures var kept := KeptUpdates(updates, rules).value;
      forall k :: 0 <= k < |kept| ==> kept[k] in updates && Judge(kept[k], rules) == Some(true) && |kept[k]| > 0
  {
    if updates != [] {
      var n := |updates| - 1;
      KeptUpdatesGood(updates[..n], rules);
      var kept := KeptUpdates(updates, rules).value;
      var front := KeptUpdates(updates[..n], rules).value;
      forall k | 0 <= k < |kept| ensures kept[k] in updates && Judge(kept[k], rules) == Some(true) && |kept[k]| > 0 {
        if k < |front| {
          assert kept[k] == front[k];
          assert kept[k] in updates[..n];
        } else {
          assert kept[k] == updates[n];
          JudgeFromSpec(updates[n], rules, 0, false);
          var i :| 0 <= i < |rules| && |rules[i]| >= 2 && Applies(updates[n], rules[i]);
        }
      }
    }
  }

  /** An update no rule applies to is never kept, however its pages are
      ordered. */
  lemma NoApplicableRuleRejected(update: seq<int>, rules: seq<seq<int>>)
    requires forall i :: 0 <= i < |rules| && |rules[i]| >= 2 ==> !Applies(update, rules[i])
    ensures Judge(update, rules) != Some(true)
  {
    JudgeFromSpec(update, rules, 0, false);
  }

  lemma {:induction false} BreakStopsReading(update: seq<int>, rules: seq<seq<int>>, i: nat, k: nat, good: bool)
    requires k <= i < |rules| && Passes(update, rules, k, i) && |rules[i]| >= 2 && Violates(update, rules[i])
    ensures JudgeFrom(update, rules, k, good) == Some(false)
    decreases i - k
  {
    if k < i {
      assert Clears(update, rules[k]);
      BreakStopsReading(update, rules, i, k + 1, if |rules[k]| >= 2 && Applies(update, rules[k]) then true else good);
    }
  }

  /** Rules are read only as far as the loop gets: once rule `i` is violated
      the update is rejected, whatever rules follow, short ones included. */
  lemma ViolationEndsLoop(update: seq<int>, rules: seq<seq<int>>, i: nat, later: seq<seq<int>>)
    requires i < |rules| && Passes(update, rules, 0, i) && |rules[i]| >= 2 && Violates(update, rules[i])
    ensures Judge(update, rules) == Some(false)
    ensures Judge(update, rules[..i + 1] + later) == Some(false)
  {
    BreakStopsReading(update, rules, i, 0, false);
    var rs := rules[..i + 1] + later;
    assert forall k :: 0 <= k <= i ==> rs[k] == rules[k];
    BreakStopsReading(update, rs, i, 0, false);
  }

  /** On an empty update no rule applies, so the loop keeps its flag. */
  lemma {:induction false} EmptyUpdateFrom(rules: seq<seq<int>>, i: nat, good: bool)
    requires i <= |rules|
    ensures JudgeFrom([], rules, i, good) == Some(good)
    decreases |rules| - i
  {
    if i < |rules| {
      EmptyUpdateFrom(rules, i + 1, good);
    }
  }

  /** An empty update is rejected without reading any rule, short ones
      included: the `position` closures never run. */
  lemma EmptyUpdateRejected(rules: seq<seq<int>>)
    ensures Judge([], rules) == Some(false)
  {
    EmptyUpdateFrom(rules, 0, false);
  }

  /** `update[update.len() / 2]`. */
  function MiddlePage(update: seq<int>): int
    requires |update| > 0
  {
    update[|update| / 2]
  }

  /** `get_middle_page_numbers_from_valid_updates`. */
  method GetMiddlePages(updates: seq<seq<int>>) returns (middlePages: seq<int>)
    requires forall k :: 0 <= k < |updates| ==> |updates[k]| > 0
    ensures |middlePages| == |updates|
    ensures forall k :: 0 <= k < |updates| ==> middlePages[k] == MiddlePage(updates[k]) && middlePages[k] in updates[k]
  {
    middlePages := [];
    for x := 0 to |updates|
      invariant |middlePages| == x
      invariant forall k :: 0 <= k < x ==> middlePages[k] == MiddlePage(updates[k]) && middlePages[k] in updates[k]
    {
      middlePages := middlePages + [updates[x][|updates[x]| / 2]];
    }
  }

  /** The sum of the middle pages of the given updates. */
  function MiddleSum(updates: seq<seq<int>>): int
    requires forall k :: 0 <= k < |updates| ==> |updates[k]| > 0
  {
    if updates == [] then 0 else MiddleSum(updates[..|updates| - 1]) + MiddlePage(updates[|updates| - 1])
  }

  /** The input has the two blocks `main` reads, both parse, and no update's
      rule loop reaches a rule with fewer than two pages. */
  predicate Accepted(lines: seq<string>) {
    var blocks := Blocks(lines);
    |blocks| >= 2 && ParseLines(blocks[0], '|').Some? && ParseLines(blocks[1], ',').Some?
    && KeptUpdates(ParseLines(blocks[1], ',').value, ParseLines(blocks[0], '|').value).Some?
  }

  /** The answer for accepted input: the middle-page sum of the kept updates. */
  function Answer(lines: seq<string>): int
    requires Accepted(lines)
  {
    var blocks := Blocks(lines);
    var rules := ParseLines(blocks[0], '|').value;
    var updates := ParseLines(blocks[1], ',').value;
    KeptUpdatesGood(updates, rules);
    MiddleSum(KeptUpdates(updates, rules).value)
  }

  /** The summing loop of `main`. */
  method SumMiddlePages(valid: seq<seq<int>>) returns (sum: int)
    requires forall k :: 0 <= k < |valid| ==> |valid[k]| > 0
    ensures sum == MiddleSum(valid)
  {
    var middlePages := GetMiddlePages(valid);
    sum := 0;
    for x := 0 to |middlePages|
      invariant sum == MiddleSum(valid[..x])
    {
      assert valid[..x + 1][..x] == valid[..x];
      sum := sum + middlePages[x];
    }
    assert valid[..|valid|] == valid;
  }

  /** `main`: the first block holds the rules and the second the updates.
      `None` when the program would abort: fewer than two blocks, a line that
      does not parse, or a rule with fewer than two pages that some update's
      rule loop gets to. */
  method Solve(lines: seq<string>) returns (r: Option<int>)
    ensures r.Some? <==> Accepted(lines)
    ensures r.Some? ==> r.value == Answer(lines)
  {
    var blocks := GetBlocks(lines);
    if |blocks| < 2 {
      return None;
    }
    var rules := GetOrderingRules(blocks[0]);
    if rules.None? {
      return None;
    }
    var updates := GetUpdates(blocks[1]);
    if updates.None? {
      return None;
    }
    var valid := GetValidUpdates(updates.value, rules.value);
    if valid.None? {
      return None;
    }
    KeptUpdatesGood(updates.value, rules.value);
    var sum := SumMiddlePages(valid.value);
    return Some(sum);
  }
}
