/** Day 11: a row of engraved stones that all change at every blink. The
    solver keeps a map from engraving to the number of stones bearing it and
    rewrites the whole map once per blink; a second, recursive counter
    counts the stones one starting stone becomes. */
module Day11 {
  import opened Text

  /** An engraving: the map's keys and the parsed numbers are `i64`s. */
  type Stone = n: int | -0x8000_0000_0000_0000 <= n <= 0x7FFF_FFFF_FFFF_FFFF

  predicate InI64(v: int) {
    -0x8000_0000_0000_0000 <= v <= 0x7FFF_FFFF_FFFF_FFFF
  }

  /** `n.to_string()` for an `i64`: a minus sign before the digits of a
      negative number. */
  function Show(n: int): (s: string)
    ensures |s| >= 1
  {
    if n < 0 then "-" + ToDecimal(-n) else ToDecimal(n)
  }

  /** A non-zero stone whose engraving has an even number of characters
      splits in two. */
  predicate Splits(n: int) {
    n != 0 && |Show(n)| % 2 == 0
  }

  /** One blink of one stone. A 0 becomes a 1; an engraving of even length
      becomes its left and right halves, each parsed as an `i64` (`None`
      when a half does not parse: the `unwrap` aborts); any other stone is
      multiplied by 2024 (`None` when the product leaves the `i64` range:
      the overflow check aborts). */
  function Blink(n: Stone): Option<seq<Stone>> {
    if n == 0 then Some([1])
    else if Splits(n) then
      var s := Show(n);
      var mid := |s| / 2;
      match (ParseInt(s[..mid], I64), ParseInt(s[mid..], I64))
      case (Some(a), Some(b)) => Some([a as Stone, b as Stone])
      case _ => None
    else if InI64(n * 2024) then Some([n * 2024 as Stone])
    else None
  }

  function Pow10(k: nat): (r: nat)
    ensures r >= 1
  {
    if k == 0 then 1 else 10 * Pow10(k - 1)
  }

  /** The value of a digit string is its prefix shifted left plus its suffix. */
  lemma {:induction false} DigitsSplit(s: string, m: nat)
    requires AllDigits(s) && m <= |s|
    ensures DigitsValue(s) == DigitsValue(s[..m]) * Pow10(|s| - m) + DigitsValue(s[m..])
    decreases |s|
  {
    if m < |s| {
      var front := s[..|s| - 1];
      assert front[..m] == s[..m];
      DigitsSplit(front, m);
      assert s[m..][..|s[m..]| - 1] == front[m..];
      ShiftStep(DigitsValue(s[..m]), Pow10(|front| - m), DigitsValue(front[m..]), DigitValue(s[|s| - 1]));
    } else {
      assert s[..m] == s;
    }
  }

  /** A digit string of length k is worth less than 10^k. */
  lemma {:induction false} DigitsBound(s: string)
    requires AllDigits(s)
    ensures DigitsValue(s) < Pow10(|s|)
  {
    if s != [] {
      DigitsBound(s[..|s| - 1]);
    }
  }

  lemma {:induction false} MulAtLeast(k: nat, p: nat)
    requires k >= 1
    ensures k * p >= p
  {
    if k > 1 {
      MulAtLeast(k - 1, p);
      assert k * p == (k - 1) * p + p;
    }
  }

  /** Euclidean division by a positive divisor has one answer. */
  lemma DivModUnique(n: int, a: int, b: int, p: int)
    requires p > 0 && 0 <= b < p && n == a * p + b
    ensures n / p == a && n % p == b
  {
    var q, r := n / p, n % p;
    assert n == q * p + r;
    if q > a {
      assert (q - a) * p == q * p - a * p;
      MulAtLeast(q - a, p);
    } else if q < a {
      assert (a - q) * p == a * p - q * p;
      MulAtLeast(a - q, p);
    }
  }

  lemma ShiftStep(a: int, p: int, b: int, d: int)
    ensures 10 * (a * p + b) + d == a * (10 * p) + (10 * b + d)
  {
  }

  /** A string of digits within range parses to its value. */
  lemma ParseDigits(t: string)
    requires AllDigits(t) && |t| > 0 && DigitsValue(t) <= I64.Max()
    ensures ParseInt(t, I64) == Some(DigitsValue(t))
  {
  }

  /** The halves of a digit string, as numbers: the whole divided by
      10^k and the remainder, k being the length of the right half. */
  lemma HalvesValue(s: string, mid: nat)
    requires AllDigits(s) && mid <= |s|
    ensures DigitsValue(s) / Pow10(|s| - mid) == DigitsValue(s[..mid])
    ensures DigitsValue(s) % Pow10(|s| - mid) == DigitsValue(s[mid..])
  {
    DigitsSplit(s, mid);
    DigitsBound(s[mid..]);
    DivModUnique(DigitsValue(s), DigitsValue(s[..mid]), DigitsValue(s[mid..]), Pow10(|s| - mid));
  }

  /** Both halves of a digit string worth at most `i64::MAX` parse as their values. */
  lemma DigitHalves(s: string, mid: nat)
    requires AllDigits(s) && 0 < mid < |s| && s[0] != '0' && DigitsValue(s) <= I64.Max()
    ensures ParseInt(s[..mid], I64) == Some(DigitsValue(s[..mid]))
    ensures ParseInt(s[mid..], I64) == Some(DigitsValue(s[mid..]))
  {
    HalvesBounded(s, mid);
    ParseDigits(s[..mid]);
    ParseDigits(s[mid..]);
  }

  /** Halves of a positive even-length engraving: the number divided by
      10^k and the remainder, k being half the length. Leading zeros of the
      right half vanish: 1000 becomes 10 and 0. */
  lemma SplitHalves(n: Stone)
    requires 0 < n && Splits(n)
    ensures Blink(n) == Some([n / Pow10(|Show(n)| / 2), n % Pow10(|Show(n)| / 2)])
  {
    var s := ToDecimal(n);
    assert Show(n) == s;
    var mid := |s| / 2;
    assert |s| - mid == mid && |s| >= 2;
    assert DigitsValue(s) == n by {
      DecimalValue(n);
    }
    HalvesValue(s, mid);
    DigitHalves(s, mid);
  }

  /** A digit string with a non-zero first digit is worth at least one. */
  lemma {:induction false} LeadingPositive(s: string)
    requires |s| >= 1 && AllDigits(s) && s[0] != '0'
    ensures DigitsValue(s) >= 1
    decreases |s|
  {
    if |s| > 1 {
      var front := s[..|s| - 1];
      assert front[0] == s[0];
      LeadingPositive(front);
    }
  }

  /** A prefix of a digit string is worth no more than the whole. */
  lemma {:induction false} PrefixAtMost(s: string, k: nat)
    requires AllDigits(s) && k <= |s|
    ensures DigitsValue(s[..k]) <= DigitsValue(s)
    decreases |s|
  {
    if k < |s| {
      var front := s[..|s| - 1];
      assert front[..k] == s[..k];
      PrefixAtMost(front, k);
    } else {
      assert s[..k] == s;
    }
  }

  /** A proper suffix of a digit string without a leading zero is worth
      less than the whole. */
  lemma {:induction false} SuffixBelow(s: string, k: nat)
    requires 0 < k < |s| && AllDigits(s) && s[0] != '0'
    ensures DigitsValue(s[k..]) < DigitsValue(s)
    decreases |s|
  {
    var front := s[..|s| - 1];
    assert front[0] == s[0];
    if k < |front| {
      SuffixBelow(front, k);
      assert s[k..][..|s[k..]| - 1] == front[k..];
    } else {
      assert s[k..] == [s[|s| - 1]];
      assert s[k..][..0] == [];
      LeadingPositive(front);
    }
  }

  /** Both halves of a digit string without a leading zero are worth
      no more than the whole, and the left one is positive. */
  lemma HalvesBounded(s: string, k: nat)
    requires AllDigits(s) && 0 < k < |s| && s[0] != '0'
    ensures 1 <= DigitsValue(s[..k]) <= DigitsValue(s)
    ensures DigitsValue(s[k..]) < DigitsValue(s)
  {
    assert s[..k][0] == s[0];
    LeadingPositive(s[..k]);
    PrefixAtMost(s, k);
    SuffixBelow(s, k);
  }

  /** A minus sign before digits worth at most 2^63 parses as their negation. */
  lemma ParseNegative(t: string)
    requires |t| >= 1 && AllDigits(t) && DigitsValue(t) <= 0x8000_0000_0000_0000
    ensures ParseInt("-" + t, I64) == Some(0 - DigitsValue(t))
  {
    assert ("-" + t)[1..] == t;
  }

  /** Both halves of a minus sign followed by at least two digits parse
      as `i64`s when the digits are worth at most 2^63: the minus sign with
      the first `k` digits, and the remaining digits. */
  lemma NegativeHalves(d: string, k: nat)
    requires 0 < k < |d| && AllDigits(d) && d[0] != '0'
    requires DigitsValue(d) <= 0x8000_0000_0000_0000
    ensures ParseInt("-" + d[..k], I64).Some? && ParseInt(d[k..], I64).Some?
  {
    HalvesBounded(d, k);
    ParseNegative(d[..k]);
    ParseDigits(d[k..]);
  }

  /** Cutting a signed string cuts its digits one place earlier. */
  lemma CutAfterSign(d: string, mid: nat)
    requires 1 <= mid <= |d| + 1
    ensures ("-" + d)[..mid] == "-" + d[..mid - 1] && ("-" + d)[mid..] == d[mid - 1..]
  {
  }

  /** A negative engraving of four or more characters splits. */
  lemma NegativeSplits(n: Stone)
    requires n <= -10 && Splits(n)
    ensures Blink(n).Some?
  {
    var m: nat := -(n as int);
    var d := ToDecimal(m);
    var s := Show(n);
    var mid := |s| / 2;
    assert s == "-" + d;
    assert DigitsValue(d) == m by {
      DecimalValue(m);
    }
    assert |d| >= 2 by {
      assert d == ToDecimal(m / 10) + [DigitChar(m % 10)];
    }
    CutAfterSign(d, mid);
    NegativeHalves(d, mid - 1);
  }

  /** A blink fails exactly for the stones -9 to -1, whose engraving splits
      into "-" and a digit where "-" does not parse, and for the products
      that overflow. */
  lemma BlinkFails(n: Stone)
    ensures Blink(n).None? <==> -9 <= n <= -1 || (n != 0 && !Splits(n) && !InI64(n * 2024))
  {
    if -9 <= n <= -1 {
      var s := Show(n);
      assert |ToDecimal(-n)| == 1;
      assert s[..1] == "-";
    } else if n > 0 && Splits(n) {
      SplitHalves(n);
    } else if n <= -10 && Splits(n) {
      NegativeSplits(n);
    }
  }

  /** How a stone changes at a blink: the stones it becomes, in order, or
      `None` when the program aborts on it. The solver's rule is `Blink`;
      the row and count-map reasoning below holds for any rule. */
  type Rule = Stone -> Option<seq<Stone>>

  /** Every stone of the row has a blink. */
  predicate Blinkable(rule: Rule, xs: seq<Stone>) {
    forall i :: 0 <= i < |xs| ==> rule(xs[i]).Some?
  }

  /** One blink of a row of stones, each stone replaced in place. */
  function BlinkAll(rule: Rule, xs: seq<Stone>): seq<Stone>
    requires Blinkable(rule, xs)
  {
    if xs == [] then [] else BlinkAll(rule, xs[..|xs| - 1]) + rule(xs[|xs| - 1]).value
  }

  /** The row after `k` blinks, or `None` once a stone fails. */
  function Blinks(rule: Rule, xs: seq<Stone>, k: nat): Option<seq<Stone>> {
    if k == 0 then Some(xs)
    else match Blinks(rule, xs, k - 1)
      case None => None
      case Some(ys) => if Blinkable(rule, ys) then Some(BlinkAll(rule, ys)) else None
  }

  /** The number of splitting stones in a row. */
  function SplitCount(xs: seq<Stone>): nat {
    if xs == [] then 0 else SplitCount(xs[..|xs| - 1]) + (if Splits(xs[|xs| - 1]) then 1 else 0)
  }

  /** A splitting stone becomes two stones, any other one. */
  lemma BlinkSize(n: Stone)
    requires Blink(n).Some?
    ensures |Blink(n).value| == if Splits(n) then 2 else 1
  {
  }

  /** A blink adds one stone per splitting stone. */
  lemma {:induction false} BlinkAllLength(xs: seq<Stone>)
    requires Blinkable(Blink, xs)
    ensures |BlinkAll(Blink, xs)| == |xs| + SplitCount(xs)
  {
    if xs != [] {
      BlinkAllLength(xs[..|xs| - 1]);
      BlinkSize(xs[|xs| - 1]);
    }
  }

  /** A blink acts on each part of a row separately. */
  lemma {:induction false} BlinkAllConcat(rule: Rule, a: seq<Stone>, b: seq<Stone>)
    requires Blinkable(rule, a) && Blinkable(rule, b)
    ensures Blinkable(rule, a + b) && BlinkAll(rule, a + b) == BlinkAll(rule, a) + BlinkAll(rule, b)
    decreases |b|
  {
    var ab := a + b;
    assert Blinkable(rule, ab) by {
      forall i | 0 <= i < |ab| ensures rule(ab[i]).Some? {
        if i < |a| {
          assert ab[i] == a[i];
        } else {
          assert ab[i] == b[i - |a|];
        }
      }
    }
    if b == [] {
      assert ab == a;
    } else {
      var front := b[..|b| - 1];
      assert Blinkable(rule, front) by {
        assert forall i :: 0 <= i < |front| ==> front[i] == b[i];
      }
      BlinkAllConcat(rule, a, front);
      assert ab[..|ab| - 1] == a + front && ab[|ab| - 1] == b[|b| - 1];
    }
  }

  /** Rows holding the same stones are blinkable together. */
  lemma SameStonesBlinkable(rule: Rule, xs: seq<Stone>, ys: seq<Stone>)
    requires Blinkable(rule, xs) && multiset(xs) == multiset(ys)
    ensures Blinkable(rule, ys)
  {
    forall j | 0 <= j < |ys| ensures rule(ys[j]).Some? {
      assert ys[j] in multiset(xs);
      var i :| 0 <= i < |xs| && xs[i] == ys[j];
    }
  }

  /** Taking the last stone of one row and the same stone out of another
      row with the same stones leaves rows with the same stones. */
  lemma RemoveOne(xs: seq<Stone>, ys: seq<Stone>, i: nat)
    requires xs != [] && i < |ys| && ys[i] == xs[|xs| - 1] && multiset(xs) == multiset(ys)
    ensures multiset(ys[..i] + ys[i + 1..]) == multiset(xs[..|xs| - 1])
  {
    var x := ys[i];
    var left, right, front := ys[..i], ys[i + 1..], xs[..|xs| - 1];
    assert ys == left + [x] + right;
    assert xs == front + [x];
    assert multiset(ys) == multiset(left) + multiset{x} + multiset(right);
    var rest := left + right;
    assert multiset(rest) == multiset(left) + multiset(right);
    var a, b := multiset(rest), multiset(front);
    forall y ensures a[y] == b[y] {
      assert multiset(xs)[y] == b[y] + multiset{x}[y];
    }
    assert a == b;
  }

  /** A blink of the same stones in another order gives the same stones in
      another order. */
  lemma {:induction false} BlinkAllPermutation(rule: Rule, xs: seq<Stone>, ys: seq<Stone>)
    requires Blinkable(rule, xs) && multiset(xs) == multiset(ys)
    ensures Blinkable(rule, ys) && multiset(BlinkAll(rule, xs)) == multiset(BlinkAll(rule, ys))
    decreases |xs|
  {
    SameStonesBlinkable(rule, xs, ys);
    if xs != [] {
      var front := xs[..|xs| - 1];
      var x := xs[|xs| - 1];
      assert x in multiset(ys) by {
        assert xs == front + [x];
      }
      var i :| 0 <= i < |ys| && ys[i] == x;
      RemoveOne(xs, ys, i);
      assert Blinkable(rule, front) by {
        assert forall j :: 0 <= j < |front| ==> front[j] == xs[j];
      }
      BlinkAround(rule, ys, i);
      BlinkAllPermutation(rule, front, ys[..i] + ys[i + 1..]);
      Shuffle(BlinkAll(rule, front), BlinkAll(rule, ys[..i]), BlinkAll(rule, ys[i + 1..]), rule(x).value);
    }
  }

  /** The blink of a row cut around its `i`-th stone, with and without that stone. */
  lemma BlinkAround(rule: Rule, ys: seq<Stone>, i: nat)
    requires Blinkable(rule, ys) && i < |ys|
    ensures Blinkable(rule, ys[..i]) && Blinkable(rule, ys[i + 1..])
    ensures Blinkable(rule, ys[..i] + ys[i + 1..])
    ensures BlinkAll(rule, ys[..i] + ys[i + 1..]) == BlinkAll(rule, ys[..i]) + BlinkAll(rule, ys[i + 1..])
    ensures BlinkAll(rule, ys) == BlinkAll(rule, ys[..i]) + rule(ys[i]).value + BlinkAll(rule, ys[i + 1..])
  {
    SlicesBlinkable(rule, ys, i);
    BlinkLast(rule, ys, i);
    BlinkCut(rule, ys, i + 1);
    BlinkAllConcat(rule, ys[..i], ys[i + 1..]);
  }

  lemma SlicesBlinkable(rule: Rule, ys: seq<Stone>, i: nat)
    requires Blinkable(rule, ys) && i < |ys|
    ensures Blinkable(rule, ys[..i]) && Blinkable(rule, ys[..i + 1]) && Blinkable(rule, ys[i + 1..])
  {
    var left, upto, right := ys[..i], ys[..i + 1], ys[i + 1..];
    assert forall j :: 0 <= j < |left| ==> left[j] == ys[j];
    assert forall j :: 0 <= j < |upto| ==> upto[j] == ys[j];
    assert forall j :: 0 <= j < |right| ==> right[j] == ys[i + 1 + j];
  }

  /** The blink of a prefix one stone longer. */
  lemma BlinkLast(rule: Rule, ys: seq<Stone>, i: nat)
    requires i < |ys| && Blinkable(rule, ys[..i]) && Blinkable(rule, ys[..i + 1])
    ensures BlinkAll(rule, ys[..i + 1]) == BlinkAll(rule, ys[..i]) + rule(ys[i]).value
  {
    assert ys[..i + 1][..i] == ys[..i];
  }

  /** The blink of a row cut in two. */
  lemma BlinkCut(rule: Rule, ys: seq<Stone>, k: nat)
    requires k <= |ys| && Blinkable(rule, ys[..k]) && Blinkable(rule, ys[k..])
    ensures Blinkable(rule, ys) && BlinkAll(rule, ys) == BlinkAll(rule, ys[..k]) + BlinkAll(rule, ys[k..])
  {
    BlinkAllConcat(rule, ys[..k], ys[k..]);
    assert ys[..k] + ys[k..] == ys;
  }

  lemma Shuffle(a: seq<Stone>, b: seq<Stone>, c: seq<Stone>, d: seq<Stone>)
    requires multiset(a) == multiset(b + c)
    ensures multiset(a + d) == multiset(b + d + c)
  {
    assert multiset(b + d + c) == multiset(b) + multiset(d) + multiset(c);
    assert multiset(b + c) == multiset(b) + multiset(c);
  }

  /** Adding two counts; `None` when either is missing. */
  function Add(a: Option<nat>, b: Option<nat>): Option<nat> {
    match (a, b)
    case (Some(x), Some(y)) => Some(x + y)
    case _ => None
  }

  /** `apply_rules` under the blink rule `rule` (the solver's is `Blink`):
      the number of stones `n` turns into after `blinks` blinks, found by
      recursing once per stone it becomes and counting one at depth 0;
      `None` when some stone on the way aborts. */
  function ApplyRules(rule: Rule, n: Stone, blinks: nat): Option<nat>
    decreases blinks, 0
  {
    if blinks == 0 then Some(1)
    else match rule(n)
      case None => None
      case Some(ys) => CountAll(rule, ys, blinks - 1)
  }

  /** The stone counts of a row, added up. */
  function CountAll(rule: Rule, xs: seq<Stone>, blinks: nat): Option<nat>
    decreases blinks, |xs| + 1
  {
    if xs == [] then Some(0)
    else Add(CountAll(rule, xs[..|xs| - 1], blinks), ApplyRules(rule, xs[|xs| - 1], blinks))
  }

  function Length(r: Option<seq<Stone>>): Option<nat> {
    match r case None => None case Some(xs) => Some(|xs|)
  }

  lemma {:induction false} CountAllConcat(rule: Rule, a: seq<Stone>, b: seq<Stone>, k: nat)
    ensures CountAll(rule, a + b, k) == Add(CountAll(rule, a, k), CountAll(rule, b, k))
    decreases |b|
  {
    if b == [] {
      assert a + b == a;
    } else {
      var front, last := b[..|b| - 1], b[|b| - 1];
      CountAllConcat(rule, a, front, k);
      assert (a + b)[..|a + b| - 1] == a + front;
      assert (a + b)[|a + b| - 1] == last;
      assert CountAll(rule, a + b, k) == Add(CountAll(rule, a + front, k), ApplyRules(rule, last, k));
      assert CountAll(rule, b, k) == Add(CountAll(rule, front, k), ApplyRules(rule, last, k));
      AddAssoc(CountAll(rule, a, k), CountAll(rule, front, k), ApplyRules(rule, last, k));
    }
  }

  /** Adding counts that may be missing is associative. */
  lemma AddAssoc(x: Option<nat>, y: Option<nat>, z: Option<nat>)
    ensures Add(Add(x, y), z) == Add(x, Add(y, z))
  {
  }

  lemma {:induction false} CountAllNoBlinks(rule: Rule, xs: seq<Stone>)
    ensures CountAll(rule, xs, 0) == Some(|xs|)
    decreases |xs|
  {
    if xs != [] {
      CountAllNoBlinks(rule, xs[..|xs| - 1]);
    }
  }

  /** Counting after `k` blinks is counting the blinked row after `k - 1`. */
  lemma {:induction false} CountAllStep(rule: Rule, xs: seq<Stone>, k: nat)
    requires k >= 1
    ensures CountAll(rule, xs, k) == if Blinkable(rule, xs) then CountAll(rule, BlinkAll(rule, xs), k - 1) else None
    decreases |xs|
  {
    if xs != [] {
      var front := xs[..|xs| - 1];
      var x := xs[|xs| - 1];
      CountAllStep(rule, front, k);
      assert CountAll(rule, xs, k) == Add(CountAll(rule, front, k), ApplyRules(rule, x, k));
      assert Blinkable(rule, xs) <==> Blinkable(rule, front) && rule(x).Some? by {
        assert forall i :: 0 <= i < |front| ==> front[i] == xs[i];
      }
      if Blinkable(rule, front) && rule(x).Some? {
        assert BlinkAll(rule, xs) == BlinkAll(rule, front) + rule(x).value;
        assert ApplyRules(rule, x, k) == CountAll(rule, rule(x).value, k - 1);
        CountAllConcat(rule, BlinkAll(rule, front), rule(x).value, k - 1);
      }
    }
  }

  /** `Blinks` unrolled from the front. */
  lemma {:induction false} BlinksFront(rule: Rule, xs: seq<Stone>, k: nat)
    requires k >= 1
    ensures Blinks(rule, xs, k) == if Blinkable(rule, xs) then Blinks(rule, BlinkAll(rule, xs), k - 1) else None
    decreases k
  {
    if k > 1 {
      BlinksFront(rule, xs, k - 1);
    }
  }

  /** The recursive counter counts the stones of the blinked row. */
  lemma {:induction false} CountAllBlinks(rule: Rule, xs: seq<Stone>, k: nat)
    ensures CountAll(rule, xs, k) == Length(Blinks(rule, xs, k))
    decreases k
  {
    if k == 0 {
      CountAllNoBlinks(rule, xs);
    } else {
      if Blinkable(rule, xs) {
        CountAllBlinks(rule, BlinkAll(rule, xs), k - 1);
      }
      BlinkStepBoth(rule, xs, k);
    }
  }

  /** One blink taken off both the count and the row. */
  lemma BlinkStepBoth(rule: Rule, xs: seq<Stone>, k: nat)
    requires k >= 1
    requires Blinkable(rule, xs) ==> CountAll(rule, BlinkAll(rule, xs), k - 1) == Length(Blinks(rule, BlinkAll(rule, xs), k - 1))
    ensures CountAll(rule, xs, k) == Length(Blinks(rule, xs, k))
  {
    CountAllStep(rule, xs, k);
    BlinksFront(rule, xs, k);
  }

  /** `apply_rules(n, k)` adds exactly the number of stones `n` becomes
      after `k` blinks (one when `k` is 0). */
  lemma ApplyRulesCounts(rule: Rule, n: Stone, k: nat)
    ensures ApplyRules(rule, n, k) == Length(Blinks(rule, [n], k))
  {
    CountAllBlinks(rule, [n], k);
    assert [n][..0] == [];
  }

  /** Once a stone fails, every later blink fails too. */
  lemma {:induction false} BlinksStayNone(rule: Rule, xs: seq<Stone>, i: nat, k: nat)
    requires i <= k && Blinks(rule, xs, i).None?
    ensures Blinks(rule, xs, k).None?
    decreases k - i
  {
    if i < k {
      BlinksStayNone(rule, xs, i + 1, k);
    }
  }

  /** The count of `y` in a count map; an absent key counts 0. */
  function Count(m: map<Stone, nat>, y: Stone): nat {
    if y in m then m[y] else 0
  }

  function Repeat(x: Stone, c: nat): seq<Stone> {
    if c == 0 then [] else Repeat(x, c - 1) + [x]
  }

  lemma {:induction false} RepeatCount(x: Stone, c: nat)
    ensures forall y :: multiset(Repeat(x, c))[y] == if y == x then c else 0
  {
    if c > 0 {
      RepeatCount(x, c - 1);
    }
  }

  /** The stones a count map stands for, in some order. */
  ghost function Stones(m: map<Stone, nat>): seq<Stone>
    decreases |m.Keys|
  {
    if m.Keys == {} then []
    else
      var k :| k in m.Keys;
      assert (m - {k}).Keys < m.Keys;
      Stones(m - {k}) + Repeat(k, m[k])
  }

  /** A count map stands for each key as many times as it counts. */
  lemma {:induction false} StonesCount(m: map<Stone, nat>)
    ensures forall y :: multiset(Stones(m))[y] == Count(m, y)
    decreases |m.Keys|
  {
    if m.Keys != {} {
      var k :| k in m.Keys && Stones(m) == Stones(m - {k}) + Repeat(k, m[k]);
      assert (m - {k}).Keys < m.Keys;
      StonesCount(m - {k});
      RepeatCount(k, m[k]);
    }
  }

  /** `c` times `k`, by repeated addition. */
  function Times(c: nat, k: nat): nat {
    if c == 0 then 0 else Times(c - 1, k) + k
  }

  lemma {:induction false} TimesSucc(c: nat, k: nat)
    ensures Times(c, k + 1) == Times(c, k) + c
  {
    if c > 0 {
      TimesSucc(c - 1, k);
    }
  }

  lemma {:induction false} TimesZero(c: nat)
    ensures Times(c, 0) == 0
  {
    if c > 0 {
      TimesZero(c - 1);
    }
  }

  /** `temp_hash.get(&y)` or 0, plus `value`, inserted back at `y`. */
  function Bump(m: map<Stone, nat>, y: Stone, value: nat): map<Stone, nat> {
    m[y := Count(m, y) + value]
  }

  /** Bumping for each stone one blink yields, in order. */
  function BumpAll(m: map<Stone, nat>, ys: seq<Stone>, value: nat): map<Stone, nat>
    decreases |ys|
  {
    if ys == [] then m else BumpAll(Bump(m, ys[0], value), ys[1..], value)
  }

  lemma {:induction false} BumpAllCount(m: map<Stone, nat>, ys: seq<Stone>, value: nat)
    ensures forall y :: Count(BumpAll(m, ys, value), y) == Count(m, y) + Times(value, multiset(ys)[y])
    ensures forall y :: y in BumpAll(m, ys, value) <==> y in m || y in ys
    decreases |ys|
  {
    if ys == [] {
      forall y ensures Times(value, multiset(ys)[y]) == 0 {
        TimesZero(value);
      }
    } else {
      var m' := Bump(m, ys[0], value);
      BumpAllCount(m', ys[1..], value);
      assert ys == [ys[0]] + ys[1..];
      forall y ensures Count(BumpAll(m, ys, value), y) == Count(m, y) + Times(value, multiset(ys)[y]) {
        var k := multiset(ys[1..])[y];
        if y == ys[0] {
          assert multiset(ys)[y] == k + 1;
          TimesSucc(value, k);
        } else {
          assert multiset(ys)[y] == k;
        }
      }
    }
  }

  /** Every stone of a count map counts at least once. */
  predicate Positive(m: map<Stone, nat>) {
    forall y :: y in m ==> m[y] >= 1
  }

  lemma {:induction false} BumpAllPositive(m: map<Stone, nat>, ys: seq<Stone>, value: nat)
    requires Positive(m) && value >= 1
    ensures Positive(BumpAll(m, ys, value))
    decreases |ys|
  {
    if ys != [] {
      BumpAllPositive(Bump(m, ys[0], value), ys[1..], value);
    }
  }

  /** The blink of `c` copies of one stone, counted. */
  lemma {:induction false} RepeatBlinks(rule: Rule, x: Stone, c: nat)
    requires rule(x).Some?
    ensures Blinkable(rule, Repeat(x, c))
    ensures forall y :: multiset(BlinkAll(rule, Repeat(x, c)))[y] == Times(c, multiset(rule(x).value)[y])
  {
    if c > 0 {
      RepeatBlinks(rule, x, c - 1);
      var r := Repeat(x, c);
      assert r[..|r| - 1] == Repeat(x, c - 1);
    }
  }

  /** `acc` holds each stone of the keys in `done` as often as the map
      counts it, and no other stone. */
  ghost predicate Stands(m: map<Stone, nat>, done: set<Stone>, acc: seq<Stone>) {
    forall y :: multiset(acc)[y] == if y in done then Count(m, y) else 0
  }

  /** `temp` counts the stones of the blink of `acc`. */
  ghost predicate CountsBlink(rule: Rule, acc: seq<Stone>, temp: map<Stone, nat>) {
    Blinkable(rule, acc) && forall y :: Count(temp, y) == multiset(BlinkAll(rule, acc))[y]
  }

  /** The keys of `temp` are the stones the keys in `done` blink into. */
  ghost predicate Produced(rule: Rule, done: set<Stone>, temp: map<Stone, nat>) {
    forall y :: y in temp <==> exists k :: k in done && rule(k).Some? && y in rule(k).value
  }

  /** What the rewrite loop keeps: the keys seen so far, `acc` standing for
      their stones, `temp` counting the blink of those stones. */
  ghost predicate Rewriting(rule: Rule, m: map<Stone, nat>, rest: set<Stone>, done: set<Stone>, acc: seq<Stone>, temp: map<Stone, nat>) {
    && rest + done == m.Keys && rest !! done
    && (forall k :: k in done ==> rule(k).Some?)
    && Stands(m, done, acc)
    && CountsBlink(rule, acc, temp)
    && Produced(rule, done, temp)
  }

  /** Adding the stones of one more key to `acc`. */
  lemma RewriteAcc(m: map<Stone, nat>, done: set<Stone>, acc: seq<Stone>, key: Stone)
    requires key in m && key !in done && Stands(m, done, acc)
    ensures Stands(m, done + {key}, acc + Repeat(key, m[key]))
  {
    RepeatCount(key, m[key]);
    forall y ensures multiset(acc + Repeat(key, m[key]))[y] == if y in done + {key} then Count(m, y) else 0 {
      assert multiset(acc + Repeat(key, m[key]))[y] == multiset(acc)[y] + multiset(Repeat(key, m[key]))[y];
    }
  }

  /** Bumping the blink of one more key keeps `temp` counting the blink of `acc`. */
  lemma RewriteCounts(rule: Rule, acc: seq<Stone>, temp: map<Stone, nat>, key: Stone, c: nat)
    requires CountsBlink(rule, acc, temp) && rule(key).Some?
    ensures CountsBlink(rule, acc + Repeat(key, c), BumpAll(temp, rule(key).value, c))
  {
    var ys := rule(key).value;
    RepeatBlinks(rule, key, c);
    BlinkAllConcat(rule, acc, Repeat(key, c));
    BumpAllCount(temp, ys, c);
    var acc' := acc + Repeat(key, c);
    forall y ensures Count(BumpAll(temp, ys, c), y) == multiset(BlinkAll(rule, acc'))[y] {
      assert multiset(BlinkAll(rule, acc'))[y] == multiset(BlinkAll(rule, acc))[y] + multiset(BlinkAll(rule, Repeat(key, c)))[y];
    }
  }

  /** Bumping the blink of one more key adds its stones to the keys. */
  lemma RewriteKeys(rule: Rule, done: set<Stone>, temp: map<Stone, nat>, key: Stone, c: nat)
    requires rule(key).Some? && Produced(rule, done, temp)
    ensures Produced(rule, done + {key}, BumpAll(temp, rule(key).value, c))
  {
    BumpAllCount(temp, rule(key).value, c);
  }

  /** One key of the rewrite. */
  lemma RewriteStep(rule: Rule, m: map<Stone, nat>, rest: set<Stone>, done: set<Stone>, acc: seq<Stone>, temp: map<Stone, nat>, key: Stone)
    requires Rewriting(rule, m, rest, done, acc, temp) && key in rest && rule(key).Some?
    ensures Rewriting(rule, m, rest - {key}, done + {key}, acc + Repeat(key, m[key]),
                      BumpAll(temp, rule(key).value, m[key]))
  {
    RewriteAcc(m, done, acc, key);
    RewriteCounts(rule, acc, temp, key, m[key]);
    RewriteKeys(rule, done, temp, key, m[key]);
  }

  /** Once every key is done, `temp` counts the blink of the map's stones. */
  lemma RewriteDone(rule: Rule, m: map<Stone, nat>, done: set<Stone>, acc: seq<Stone>, temp: map<Stone, nat>)
    requires Rewriting(rule, m, {}, done, acc, temp)
    ensures forall k :: k in m ==> rule(k).Some?
    ensures Blinkable(rule, Stones(m))
    ensures forall y :: Count(temp, y) == multiset(BlinkAll(rule, Stones(m)))[y]
  {
    StonesCount(m);
    assert multiset(acc) == multiset(Stones(m));
    BlinkAllPermutation(rule, acc, Stones(m));
  }

  /** The body of the rewrite loop for one key: `temp` with the stones
      `key` blinks into bumped by `value`, or `None` when it aborts. */
  method RewriteKey(temp: map<Stone, nat>, key: Stone, value: nat) returns (r: Option<map<Stone, nat>>)
    ensures r == if Blink(key).None? then None else Some(BumpAll(temp, Blink(key).value, value))
  {
    if key == 0 {
      r := Some(Bump(temp, 1, value));
      assert [1 as Stone][1..] == [];
    } else if |Show(key)| % 2 == 0 {
      var s := Show(key);
      var mid := |s| / 2;
      var first := ParseInt(s[..mid], I64);
      var second := ParseInt(s[mid..], I64);
      if first.None? || second.None? {
        return None;
      }
      var bumped := Bump(temp, first.value, value);
      r := Some(Bump(bumped, second.value, value));
      ghost var ys: seq<Stone> := [first.value as Stone, second.value as Stone];
      assert ys[1..] == [second.value as Stone] && ys[1..][1..] == [];
      assert BumpAll(bumped, ys[1..], value) == Bump(bumped, second.value, value);
      assert BumpAll(temp, ys, value) == BumpAll(bumped, ys[1..], value);
      assert Blink(key) == Some(ys);
    } else {
      if !InI64(key * 2024) {
        return None;
      }
      r := Some(Bump(temp, key * 2024 as Stone, value));
      assert [key * 2024 as Stone][1..] == [];
    }
  }

  /** `apply_rules2`: every key of the map, in whatever order the map yields
      them, adds its count to the count of each stone it blinks into, in a
      fresh map that then replaces the old one wholesale. */
  method ApplyRules2(engravings: map<Stone, nat>) returns (r: Option<map<Stone, nat>>)
    ensures r.Some? <==> forall k :: k in engravings ==> Blink(k).Some?
    ensures r.Some? ==> Produced(Blink, engravings.Keys, r.value)
    ensures r.Some? ==> Blinkable(Blink, Stones(engravings))
    ensures r.Some? ==> forall y :: Count(r.value, y) == multiset(BlinkAll(Blink, Stones(engravings)))[y]
    ensures r.Some? && Positive(engravings) ==> Positive(r.value)
  {
    var temp: map<Stone, nat> := map[];
    var rest := engravings.Keys;
    ghost var done: set<Stone> := {};
    ghost var acc: seq<Stone> := [];
    while rest != {}
      invariant Rewriting(Blink, engravings, rest, done, acc, temp)
      invariant Positive(engravings) ==> Positive(temp)
      decreases |rest|
    {
      var key :| key in rest;
      var value := engravings[key];
      var next := RewriteKey(temp, key, value);
      if next.None? {
        return None;
      }
      RewriteStep(Blink, engravings, rest, done, acc, temp, key);
      if Positive(engravings) {
        BumpAllPositive(temp, Blink(key).value, value);
      }
      temp := next.value;
      done := done + {key};
      acc := acc + Repeat(key, value);
      rest := rest - {key};
    }
    RewriteDone(Blink, engravings, done, acc, temp);
    r := Some(temp);
  }

  /** Words parsed as `i64` stones; `None` (the `unwrap` aborts) when a
      word does not parse. */
  function ParseStones(ws: seq<string>): (r: Option<seq<Stone>>)
    ensures r.Some? <==> forall k :: 0 <= k < |ws| ==> ParseInt(ws[k], I64).Some?
    ensures r.Some? ==> |r.value| == |ws| && forall k :: 0 <= k < |ws| ==> ParseInt(ws[k], I64) == Some(r.value[k] as int)
  {
    var parsed := ParseAll(ws, I64);
    if parsed.None? then None
    else
      var vs := parsed.value;
      Some(seq(|vs|, i requires 0 <= i < |vs| => vs[i] as Stone))
  }

  /** One line of the input: its words between single spaces, as stones. */
  function LineStones(line: string): Option<seq<Stone>> {
    ParseStones(Split(line, " "))
  }

  /** The stones `parse` reads from all lines, line after line; `None`
      once a line fails. */
  function Gather(parse: string -> Option<seq<Stone>>, lines: seq<string>): Option<seq<Stone>> {
    if lines == [] then Some([])
    else match (Gather(parse, lines[..|lines| - 1]), parse(lines[|lines| - 1]))
      case (Some(xs), Some(ys)) => Some(xs + ys)
      case _ => None
  }

  /** Gathering succeeds exactly when every line parses. */
  lemma {:induction false} GatherFails(parse: string -> Option<seq<Stone>>, lines: seq<string>)
    ensures Gather(parse, lines).Some? <==> forall x :: 0 <= x < |lines| ==> parse(lines[x]).Some?
  {
    if lines != [] {
      var front := lines[..|lines| - 1];
      GatherFails(parse, front);
      assert forall x :: 0 <= x < |front| ==> lines[x] == front[x];
    }
  }

  /** The stones of all lines of the input. */
  function Arrangement(lines: seq<string>): Option<seq<Stone>> {
    Gather(LineStones, lines)
  }

  /** The input is read exactly when every line reads. */
  lemma ArrangementFails(lines: seq<string>)
    ensures Arrangement(lines).Some? <==> forall x :: 0 <= x < |lines| ==> LineStones(lines[x]).Some?
  {
    GatherFails(LineStones, lines);
  }

  /** Stones written out in decimal with single spaces read back as themselves. */
  lemma LineRoundTrip(ns: seq<nat>)
    requires |ns| >= 1 && forall k :: 0 <= k < |ns| ==> ns[k] <= I64.Max()
    ensures LineStones(Join(Decimals(ns), " ")).Some?
    ensures |LineStones(Join(Decimals(ns), " ")).value| == |ns|
    ensures forall k :: 0 <= k < |ns| ==> LineStones(Join(Decimals(ns), " ")).value[k] == ns[k]
  {
    DecimalsSplitJoin(ns, ' ');
    ParseAllDecimals(ns, I64);
    assert Split(Join(Decimals(ns), " "), " ") == Decimals(ns);
  }

  /** `get_inital_arrangement_from_file`: each line's stones appended in turn. */
  method InitialArrangement(lines: seq<string>) returns (r: Option<seq<Stone>>)
    ensures r == Arrangement(lines)
  {
    var stones: seq<Stone> := [];
    for x := 0 to |lines|
      invariant Arrangement(lines[..x]) == Some(stones)
    {
      var line := LineStones(lines[x]);
      assert Arrangement(lines[..x + 1]) == if line.None? then None else Some(stones + line.value) by {
        assert lines[..x + 1][..x] == lines[..x];
      }
      if line.None? {
        r := None;
        StaysNone(LineStones, lines, x + 1);
        return;
      }
      stones := stones + line.value;
    }
    assert lines[..|lines|] == lines;
    r := Some(stones);
  }

  /** A line that fails makes every longer run of lines fail. */
  lemma {:induction false} StaysNone(parse: string -> Option<seq<Stone>>, lines: seq<string>, x: nat)
    requires x <= |lines| && Gather(parse, lines[..x]).None?
    ensures Gather(parse, lines).None?
    decreases |lines| - x
  {
    if x < |lines| {
      assert lines[..x + 1][..x] == lines[..x];
      StaysNone(parse, lines, x + 1);
    } else {
      assert lines[..x] == lines;
    }
  }

  /** The stones of a row without repeats, each at its first position. */
  function Distinct(xs: seq<Stone>): (r: seq<Stone>)
    ensures forall y :: y in r <==> y in xs
  {
    if xs == [] then []
    else if xs[|xs| - 1] in xs[..|xs| - 1] then Distinct(xs[..|xs| - 1])
    else Distinct(xs[..|xs| - 1]) + [xs[|xs| - 1]]
  }

  /** A row without repeats holds each stone of the input once. */
  lemma {:induction false} DistinctCount(xs: seq<Stone>)
    ensures forall y :: multiset(Distinct(xs))[y] == if y in xs then 1 else 0
  {
    if xs != [] {
      var front := xs[..|xs| - 1];
      DistinctCount(front);
      assert xs == front + [xs[|xs| - 1]];
    }
  }

  /** The map built from the input: each distinct stone once, duplicates
      collapsing onto one key. */
  method InitialCounts(stones: seq<Stone>) returns (m: map<Stone, nat>)
    ensures m.Keys == set y | y in stones
    ensures forall y :: y in m ==> m[y] == 1
    ensures multiset(Stones(m)) == multiset(Distinct(stones))
  {
    m := map[];
    for x := 0 to |stones|
      invariant m.Keys == set y | y in stones[..x]
      invariant forall y :: y in m ==> m[y] == 1
    {
      assert stones[..x + 1] == stones[..x] + [stones[x]];
      m := m[stones[x] := 1];
    }
    assert stones[..|stones|] == stones;
    StonesCount(m);
    DistinctCount(stones);
    assert multiset(Stones(m)) == multiset(Distinct(stones)) by {
      forall y ensures multiset(Stones(m))[y] == multiset(Distinct(stones))[y] {
        assert y in m <==> y in stones;
      }
    }
  }

  /** What the summing loop keeps: `acc` stands for the stones of the keys
      seen so far and `sum` counts them. */
  ghost predicate Summing(m: map<Stone, nat>, rest: set<Stone>, done: set<Stone>, acc: seq<Stone>, sum: nat) {
    && rest + done == m.Keys && rest !! done
    && Stands(m, done, acc)
    && sum == |acc|
  }

  lemma SumStep(m: map<Stone, nat>, rest: set<Stone>, done: set<Stone>, acc: seq<Stone>, sum: nat, key: Stone)
    requires Summing(m, rest, done, acc, sum) && key in rest
    ensures Summing(m, rest - {key}, done + {key}, acc + Repeat(key, m[key]), sum + m[key])
  {
    RewriteAcc(m, done, acc, key);
    RepeatLength(key, m[key]);
  }

  lemma SumDone(m: map<Stone, nat>, done: set<Stone>, acc: seq<Stone>, sum: nat)
    requires Summing(m, {}, done, acc, sum)
    ensures sum == |Stones(m)|
  {
    StonesCount(m);
    assert multiset(acc) == multiset(Stones(m));
    SameSize(acc, Stones(m));
  }

  /** The sum of the map's counts, one key at a time in the map's order. */
  method TotalStones(m: map<Stone, nat>) returns (sum: nat)
    ensures sum == |Stones(m)|
  {
    sum := 0;
    var rest := m.Keys;
    ghost var done: set<Stone> := {};
    ghost var acc: seq<Stone> := [];
    while rest != {}
      invariant Summing(m, rest, done, acc, sum)
      decreases |rest|
    {
      var key :| key in rest;
      SumStep(m, rest, done, acc, sum, key);
      sum := sum + m[key];
      acc := acc + Repeat(key, m[key]);
      done := done + {key};
      rest := rest - {key};
    }
    SumDone(m, done, acc, sum);
  }

  lemma {:induction false} RepeatLength(x: Stone, c: nat)
    ensures |Repeat(x, c)| == c
  {
    if c > 0 {
      RepeatLength(x, c - 1);
    }
  }

  lemma SameSize(xs: seq<Stone>, ys: seq<Stone>)
    requires multiset(xs) == multiset(ys)
    ensures |xs| == |ys|
  {
    assert |multiset(xs)| == |xs| && |multiset(ys)| == |ys|;
  }

  /** `main`: the map of distinct input stones rewritten `depth` times, then
      its counts summed. The answer is the recursive counter's over the
      distinct input stones: the map and the counter agree. */
  method Solve(lines: seq<string>, depth: nat) returns (r: Option<nat>)
    ensures Arrangement(lines).None? ==> r.None?
    ensures Arrangement(lines).Some? ==> r == CountAll(Blink, Distinct(Arrangement(lines).value), depth)
  {
    var stones := InitialArrangement(lines);
    if stones.None? {
      return None;
    }
    var engravings := InitialCounts(stones.value);
    ghost var start := Distinct(stones.value);
    ghost var row := start;
    for i := 0 to depth
      invariant Blinks(Blink, start, i) == Some(row)
      invariant multiset(Stones(engravings)) == multiset(row)
      invariant Positive(engravings)
    {
      var next := ApplyRules2(engravings);
      if next.None? {
        RoundFails(Blink, engravings, row);
        assert Blinks(Blink, start, i + 1).None?;
        BlinksStayNone(Blink, start, i + 1, depth);
        CountAllBlinks(Blink, start, depth);
        return None;
      }
      RoundStep(Blink, engravings, next.value, row);
      engravings := next.value;
      row := BlinkAll(Blink, row);
    }
    var total := TotalStones(engravings);
    SameSize(Stones(engravings), row);
    CountAllBlinks(Blink, start, depth);
    r := Some(total);
  }

  /** A key whose blink aborts stands for a stone of the row, which then
      cannot blink. */
  lemma RoundFails(rule: Rule, m: map<Stone, nat>, row: seq<Stone>)
    requires Positive(m) && multiset(Stones(m)) == multiset(row)
    requires exists k :: k in m && rule(k).None?
    ensures !Blinkable(rule, row)
  {
    var k :| k in m && rule(k).None?;
    StonesCount(m);
    assert k in multiset(row);
    var i :| 0 <= i < |row| && row[i] == k;
  }

  /** A successful rewrite stands for the blink of the row. */
  lemma RoundStep(rule: Rule, m: map<Stone, nat>, next: map<Stone, nat>, row: seq<Stone>)
    requires multiset(Stones(m)) == multiset(row)
    requires Blinkable(rule, Stones(m))
    requires forall y :: Count(next, y) == multiset(BlinkAll(rule, Stones(m)))[y]
    ensures Blinkable(rule, row)
    ensures multiset(Stones(next)) == multiset(BlinkAll(rule, row))
  {
    BlinkAllPermutation(rule, Stones(m), row);
    StonesCount(next);
    assert multiset(Stones(next)) == multiset(BlinkAll(rule, row)) by {
      forall y ensures multiset(Stones(next))[y] == multiset(BlinkAll(rule, row))[y] {
      }
    }
  }

  /** One rewrite adds one stone per splitting stone: the new total is the
      old total plus the counts of the keys of even length. */
  lemma RoundTotal(m: map<Stone, nat>, next: map<Stone, nat>)
    requires Blinkable(Blink, Stones(m))
    requires forall y :: Count(next, y) == multiset(BlinkAll(Blink, Stones(m)))[y]
    ensures |Stones(next)| == |Stones(m)| + SplitCount(Stones(m))
  {
    StonesCount(next);
    assert multiset(Stones(next)) == multiset(BlinkAll(Blink, Stones(m))) by {
      forall y ensures multiset(Stones(next))[y] == multiset(BlinkAll(Blink, Stones(m)))[y] {
      }
    }
    SameSize(Stones(next), BlinkAll(Blink, Stones(m)));
    BlinkAllLength(Stones(m));
  }
}
