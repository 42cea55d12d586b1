/** Text handling shared by the solvers: Rust's `str::split`, `str::trim`,
    the integer `FromStr` parsers, the blank-line block splitter and the
    line-to-grid conversion. Input files are given as sequences of lines. */
module Text {

  datatype Option<T> = None | Some(value: T)

  /** Unicode White_Space, the predicate behind `char::is_whitespace`. */
  predicate IsWhitespace(c: char) {
    ('\t' <= c <= '\r') || c == ' ' || c == '\U{85}' || c == '\U{A0}' || c == '\U{1680}'
    || ('\U{2000}' <= c <= '\U{200A}') || c == '\U{2028}' || c == '\U{2029}'
    || c == '\U{202F}' || c == '\U{205F}' || c == '\U{3000}'
  }

  /** Number of leading whitespace characters. */
  function LeadingSpace(s: string): (n: nat)
    ensures n <= |s|
    ensures forall i :: 0 <= i < n ==> IsWhitespace(s[i])
    ensures n < |s| ==> !IsWhitespace(s[n])
  {
    if s == [] || !IsWhitespace(s[0]) then 0 else 1 + LeadingSpace(s[1..])
  }

  /** Number of trailing whitespace characters. */
  function TrailingSpace(s: string): (n: nat)
    ensures n <= |s|
    ensures forall i :: |s| - n <= i < |s| ==> IsWhitespace(s[i])
    ensures n < |s| ==> !IsWhitespace(s[|s| - 1 - n])
  {
    if s == [] || !IsWhitespace(s[|s| - 1]) then 0 else 1 + TrailingSpace(s[..|s| - 1])
  }

  /** `str::trim`: the slice without leading and trailing whitespace. */
  function Trim(s: string): (r: string)
    ensures r == s[LeadingSpace(s)..|s| - TrailingSpace(s[LeadingSpace(s)..])]
    ensures r != [] ==> !IsWhitespace(r[0]) && !IsWhitespace(r[|r| - 1])
  {
    var t := s[LeadingSpace(s)..];
    t[..|t| - TrailingSpace(t)]
  }

  /** A blank line: nothing but whitespace. */
  predicate IsBlank(line: string) {
    line == [] || (IsWhitespace(line[0]) && IsBlank(line[1..]))
  }

  lemma {:induction false} BlankAt(line: string)
    ensures IsBlank(line) <==> forall i :: 0 <= i < |line| ==> IsWhitespace(line[i])
  {
    if line != [] {
      BlankAt(line[1..]);
      assert forall i :: 1 <= i < |line| ==> line[1..][i - 1] == line[i];
    }
  }

  /** The source's test `line.trim().len() > 0` is exactly "not blank". */
  lemma TrimEmptyIffBlank(line: string)
    ensures |Trim(line)| == 0 <==> IsBlank(line)
  {
    BlankAt(line);
    var n := LeadingSpace(line);
    if n < |line| {
      var t := line[n..];
      assert t[0] == line[n];
      assert !IsWhitespace(t[|t| - |t|]);
    }
  }

  predicate IsDigit(c: char) {
    '0' <= c <= '9'
  }

  predicate AllDigits(s: string) {
    forall i :: 0 <= i < |s| ==> IsDigit(s[i])
  }

  function DigitValue(c: char): (d: nat)
    requires IsDigit(c)
    ensures d < 10
  {
    (c as int - '0' as int) as nat
  }

  function DigitChar(d: nat): (c: char)
    requires d < 10
    ensures IsDigit(c) && DigitValue(c) == d
  {
    ('0' as int + d) as char
  }

  /** The value of a string of decimal digits, most significant first. */
  function DigitsValue(s: string): nat
    requires AllDigits(s)
  {
    if s == [] then 0 else 10 * DigitsValue(s[..|s| - 1]) + DigitValue(s[|s| - 1])
  }

  /** `n.to_string()` for a non-negative integer: no sign, no leading zero. */
  function ToDecimal(n: nat): (s: string)
    ensures |s| >= 1 && AllDigits(s)
    ensures |s| > 1 ==> s[0] != '0'
  {
    if n < 10 then [DigitChar(n)] else ToDecimal(n / 10) + [DigitChar(n % 10)]
  }

  lemma {:induction false} DecimalValue(n: nat)
    ensures DigitsValue(ToDecimal(n)) == n
  {
    if n >= 10 {
      var s := ToDecimal(n);
      assert s[..|s| - 1] == ToDecimal(n / 10);
      DecimalValue(n / 10);
    }
  }

  /** The integer types whose `parse` the solvers call. */
  datatype IntKind = I32 | I64 | U32 | U64 {
    function Min(): int {
      match this
      case I32 => -0x8000_0000
      case I64 => -0x8000_0000_0000_0000
      case U32 => 0
      case U64 => 0
    }
    function Max(): int {
      match this
      case I32 => 0x7FFF_FFFF
      case I64 => 0x7FFF_FFFF_FFFF_FFFF
      case U32 => 0xFFFF_FFFF
      case U64 => 0xFFFF_FFFF_FFFF_FFFF
    }
    predicate Signed() {
      this == I32 || this == I64
    }
  }

  /** Rust's `FromStr` for an integer type: an optional `+` (or `-` for a
      signed type) that is not the whole string, then one or more decimal
      digits whose value lies in the type's range. Anything else is an error. */
  function ParseInt(s: string, kind: IntKind): (r: Option<int>)
    ensures r.Some? ==> kind.Min() <= r.value <= kind.Max()
    ensures r.Some? ==> |s| > 0
  {
    if |s| == 0 then None
    else if (s[0] == '+' || s[0] == '-') && |s| == 1 then None
    else
      var negative := s[0] == '-' && kind.Signed();
      var digits := if s[0] == '+' || negative then s[1..] else s;
      if !AllDigits(digits) then None
      else
        var v: int := if negative then 0 - DigitsValue(digits) else DigitsValue(digits);
        if kind.Min() <= v <= kind.Max() then Some(v) else None
  }

  /** Parsing the decimal rendering of an in-range number gives it back. */
  lemma ParseDecimal(n: nat, kind: IntKind)
    requires n <= kind.Max()
    ensures ParseInt(ToDecimal(n), kind) == Some(n)
  {
    DecimalValue(n);
  }

  /** A string with a character that is neither a digit nor a sign never parses. */
  lemma ParseRejectsNonDigit(s: string, kind: IntKind, i: nat)
    requires 0 < i < |s| && !IsDigit(s[i])
    ensures ParseInt(s, kind) == None
  {
    if |s| > 1 {
      var negative := s[0] == '-' && kind.Signed();
      var digits := if s[0] == '+' || negative then s[1..] else s;
      var j := if s[0] == '+' || negative then i - 1 else i;
      assert digits[j] == s[i];
    }
  }

  /** `str::split` with a non-empty separator: the pieces between
      leftmost non-overlapping occurrences of `sep`, always at least one. */
  function Split(s: string, sep: string): (r: seq<string>)
    requires |sep| > 0
    ensures |r| >= 1
    decreases |s|
  {
    if |s| < |sep| then [s]
    else if s[..|sep|] == sep then [""] + Split(s[|sep|..], sep)
    else
      var rest := Split(s[1..], sep);
      [[s[0]] + rest[0]] + rest[1..]
  }

  /** `join`: the pieces with `sep` between consecutive ones. */
  function Join(parts: seq<string>, sep: string): string
    requires |parts| >= 1
  {
    if |parts| == 1 then parts[0] else parts[0] + sep + Join(parts[1..], sep)
  }

  /** Splitting loses nothing: joining the pieces rebuilds the string. */
  lemma {:induction false} SplitJoin(s: string, sep: string)
    requires |sep| > 0
    ensures Join(Split(s, sep), sep) == s
    decreases |s|
  {
    if |s| < |sep| {
    } else if s[..|sep|] == sep {
      SplitJoin(s[|sep|..], sep);
      SplitJoinAtSeparator(s, sep);
    } else {
      SplitJoin(s[1..], sep);
      SplitJoinPastFirst(s, sep);
    }
  }

  /** The step of `SplitJoin` when `s` starts with the separator. */
  lemma SplitJoinAtSeparator(s: string, sep: string)
    requires 0 < |sep| <= |s| && s[..|sep|] == sep
    requires Join(Split(s[|sep|..], sep), sep) == s[|sep|..]
    ensures Join(Split(s, sep), sep) == s
  {
    var t := s[|sep|..];
    SplitAtSeparator(s, sep);
    JoinEmptyFront(Split(t, sep), sep);
    PrefixThenRest(s, sep);
  }

  /** A string that starts with the separator splits off an empty piece first. */
  lemma SplitAtSeparator(s: string, sep: string)
    requires 0 < |sep| <= |s| && s[..|sep|] == sep
    ensures Split(s, sep) == [""] + Split(s[|sep|..], sep)
  {
  }

  /** A string that starts with `p` is `p` followed by the rest. */
  lemma PrefixThenRest<T>(s: seq<T>, p: seq<T>)
    requires |p| <= |s| && s[..|p|] == p
    ensures p + s[|p|..] == s
  {
    assert s == s[..|p|] + s[|p|..];
  }

  /** Joining with an empty first piece starts with the separator. */
  lemma JoinEmptyFront(parts: seq<string>, sep: string)
    requires |parts| >= 1
    ensures Join([""] + parts, sep) == sep + Join(parts, sep)
  {
    assert ([""] + parts)[1..] == parts;
  }

  /** The step of `SplitJoin` when `s` does not start with the separator. */
  lemma SplitJoinPastFirst(s: string, sep: string)
    requires 0 < |sep| <= |s| && s[..|sep|] != sep
    requires Join(Split(s[1..], sep), sep) == s[1..]
    ensures Join(Split(s, sep), sep) == s
  {
    var rest := Split(s[1..], sep);
    assert Split(s, sep) == [[s[0]] + rest[0]] + rest[1..];
    JoinFront(s[0], rest, sep);
    assert s == [s[0]] + s[1..];
  }

  /** Joining with a character put before the first piece. */
  lemma JoinFront(c: char, parts: seq<string>, sep: string)
    requires |parts| >= 1
    ensures Join([[c] + parts[0]] + parts[1..], sep) == [c] + Join(parts, sep)
  {
    var pieces := [[c] + parts[0]] + parts[1..];
    if |parts| > 1 {
      assert pieces[1..] == parts[1..];
    }
  }

  predicate OccursAt(s: string, sep: string, i: int) {
    0 <= i <= |s| - |sep| && s[i..i + |sep|] == sep
  }

  /** A string without the separator splits into itself alone. */
  lemma {:induction false} SplitNoSeparator(s: string, sep: string)
    requires |sep| > 0
    requires forall i :: !OccursAt(s, sep, i)
    ensures Split(s, sep) == [s]
    decreases |s|
  {
    if |s| >= |sep| {
      assert !OccursAt(s, sep, 0);
      forall i ensures !OccursAt(s[1..], sep, i) {
        if OccursAt(s[1..], sep, i) {
          assert s[1..][i..i + |sep|] == s[i + 1..i + 1 + |sep|];
          assert OccursAt(s, sep, i + 1);
        }
      }
      SplitNoSeparator(s[1..], sep);
      assert s == [s[0]] + s[1..];
    }
  }

  /** A piece that cannot start the separator splits off first. */
  lemma {:induction false} SplitFirst(s: string, sep: string, t: string)
    requires |sep| > 0
    requires forall i :: 0 <= i < |s| ==> s[i] != sep[0]
    ensures Split(s + sep + t, sep) == [s] + Split(t, sep)
    decreases |s|
  {
    var u := s + sep + t;
    if s == [] {
      assert u == sep + t;
      assert u[..|sep|] == sep && u[|sep|..] == t;
    } else {
      assert u[..|sep|] != sep by { assert u[..|sep|][0] == s[0]; }
      assert u[1..] == s[1..] + sep + t;
      SplitFirst(s[1..], sep, t);
      assert [s[0]] + s[1..] == s;
    }
  }

  /** The decimal renderings of a list of numbers. */
  function Decimals(ns: seq<nat>): (r: seq<string>)
    ensures |r| == |ns| && forall k :: 0 <= k < |ns| ==> r[k] == ToDecimal(ns[k])
  {
    if ns == [] then [] else [ToDecimal(ns[0])] + Decimals(ns[1..])
  }

  /** Parsing the decimal renderings of in-range numbers gives the numbers back. */
  lemma ParseAllDecimals(ns: seq<nat>, kind: IntKind)
    requires forall k :: 0 <= k < |ns| ==> ns[k] <= kind.Max()
    ensures ParseAll(Decimals(ns), kind) == Some(ns)
  {
    var ds := Decimals(ns);
    forall k | 0 <= k < |ns| ensures ParseInt(ds[k], kind) == Some(ns[k] as int) {
      ParseDecimal(ns[k], kind);
    }
    var r := ParseAll(ds, kind);
    assert r.value == ns;
  }

  /** Numbers written with a non-digit separator split back into their renderings. */
  lemma DecimalsSplitJoin(ns: seq<nat>, c: char)
    requires |ns| >= 1 && !IsDigit(c)
    ensures Split(Join(Decimals(ns), [c]), [c]) == Decimals(ns)
  {
    var ds := Decimals(ns);
    forall k, i | 0 <= k < |ds| && 0 <= i < |ds[k]| ensures ds[k][i] != c {
      assert IsDigit(ds[k][i]);
    }
    SplitJoinInverse(ds, c);
  }

  /** Splitting undoes joining, when no piece holds the separator character. */
  lemma {:induction false} SplitJoinInverse(parts: seq<string>, c: char)
    requires |parts| >= 1
    requires forall k, i :: 0 <= k < |parts| && 0 <= i < |parts[k]| ==> parts[k][i] != c
    ensures Split(Join(parts, [c]), [c]) == parts
    decreases |parts|
  {
    var p := parts[0];
    assert forall i :: 0 <= i < |p| ==> p[i] != c;
    if |parts| == 1 {
      SplitAvoiding(p, c);
    } else {
      SplitJoinInverse(parts[1..], c);
      SplitJoinInverseStep(parts, c);
    }
  }

  /** A string without character `c` splits on `c` into itself alone. */
  lemma SplitAvoiding(p: string, c: char)
    requires forall i :: 0 <= i < |p| ==> p[i] != c
    ensures Split(p, [c]) == [p]
  {
    forall i ensures !OccursAt(p, [c], i) {
      if 0 <= i < |p| {
        assert p[i..i + 1][0] == p[i];
      }
    }
    SplitNoSeparator(p, [c]);
  }

  /** The step of `SplitJoinInverse`: the first piece splits off first. */
  lemma SplitJoinInverseStep(parts: seq<string>, c: char)
    requires |parts| >= 2
    requires forall i :: 0 <= i < |parts[0]| ==> parts[0][i] != c
    requires Split(Join(parts[1..], [c]), [c]) == parts[1..]
    ensures Split(Join(parts, [c]), [c]) == parts
  {
    var p := parts[0];
    assert Join(parts, [c]) == p + [c] + Join(parts[1..], [c]);
    SplitFirst(p, [c], Join(parts[1..], [c]));
    assert [p] + parts[1..] == parts;
  }

  /** Joining pieces and a separator that all avoid a character gives a string that avoids it. */
  lemma {:induction false} JoinAvoids(parts: seq<string>, sep: string, c: char)
    requires |parts| >= 1
    requires forall k, i :: 0 <= k < |parts| && 0 <= i < |parts[k]| ==> parts[k][i] != c
    requires forall i :: 0 <= i < |sep| ==> sep[i] != c
    ensures forall i :: 0 <= i < |Join(parts, sep)| ==> Join(parts, sep)[i] != c
    decreases |parts|
  {
    if |parts| > 1 {
      JoinAvoids(parts[1..], sep, c);
      var p := parts[0];
      var j := Join(parts, sep);
      var rest := Join(parts[1..], sep);
      assert j == p + sep + rest;
      forall i | 0 <= i < |j| ensures j[i] != c {
        if i < |p| {
          assert j[i] == p[i];
        } else if i < |p| + |sep| {
          assert j[i] == sep[i - |p|];
        } else {
          assert j[i] == rest[i - |p| - |sep|];
        }
      }
    }
  }

  /** With a one-character separator, no piece holds that character. */
  lemma {:induction false} SplitAvoidsSeparator(s: string, c: char)
    ensures forall k, i :: 0 <= k < |Split(s, [c])| && 0 <= i < |Split(s, [c])[k]| ==> Split(s, [c])[k][i] != c
    decreases |s|
  {
    var r := Split(s, [c]);
    if |s| >= 1 {
      SplitAvoidsSeparator(s[1..], c);
      var rest := Split(s[1..], [c]);
      if s[..1] == [c] {
        assert r == [""] + rest;
        forall k, i | 0 <= k < |r| && 0 <= i < |r[k]| ensures r[k][i] != c {
          assert r[k] == rest[k - 1];
        }
      } else {
        assert r == [[s[0]] + rest[0]] + rest[1..];
        forall k, i | 0 <= k < |r| && 0 <= i < |r[k]| ensures r[k][i] != c {
          if k == 0 {
            if i > 0 { assert r[0][i] == rest[0][i - 1]; } else { assert s[..1][0] == s[0]; }
          } else {
            assert r[k] == rest[k];
          }
        }
      }
    }
  }

  /** The pieces that are not empty, in order: `.filter(|s| !s.is_empty())`. */
  function NonEmpty(pieces: seq<string>): (r: seq<string>)
    ensures |r| <= |pieces|
    ensures forall k :: 0 <= k < |r| ==> r[k] != [] && r[k] in pieces
  {
    if pieces == [] then []
    else (if pieces[0] == [] then [] else [pieces[0]]) + NonEmpty(pieces[1..])
  }

  /** `line.split(' ').filter(|s| !s.is_empty())`: the space-free runs of a line. */
  function Words(line: string): seq<string> {
    NonEmpty(Split(line, " "))
  }

  /** The words of a line are non-empty and hold no space. */
  lemma WordsAreSpaceFree(line: string)
    ensures forall k :: 0 <= k < |Words(line)| ==> |Words(line)[k]| > 0
    ensures forall k, i :: 0 <= k < |Words(line)| && 0 <= i < |Words(line)[k]| ==> Words(line)[k][i] != ' '
  {
    var pieces := Split(line, " ");
    SplitAvoidsSeparator(line, ' ');
    var w := Words(line);
    forall k, i | 0 <= k < |w| && 0 <= i < |w[k]| ensures w[k][i] != ' ' {
      var j :| 0 <= j < |pieces| && pieces[j] == w[k];
    }
  }

  function TrimAll(ws: seq<string>): (r: seq<string>)
    ensures |r| == |ws| && forall k :: 0 <= k < |ws| ==> r[k] == Trim(ws[k])
  {
    if ws == [] then [] else [Trim(ws[0])] + TrimAll(ws[1..])
  }

  /** `.map(|w| w.parse().unwrap()).collect()`: every token's value, or
      `None` (the program aborts) as soon as one token does not parse. */
  function ParseAll(ws: seq<string>, kind: IntKind): (r: Option<seq<int>>)
    ensures r.Some? <==> forall k :: 0 <= k < |ws| ==> ParseInt(ws[k], kind).Some?
    ensures r.Some? ==> |r.value| == |ws| && forall k :: 0 <= k < |ws| ==> ParseInt(ws[k], kind) == Some(r.value[k])
  {
    if ws == [] then Some([])
    else match ParseInt(ws[0], kind)
      case None => None
      case Some(v) =>
        match ParseAll(ws[1..], kind)
        case None => None
        case Some(vs) => Some([v] + vs)
  }

  /** The numbers of a space-separated line, each word trimmed before parsing. */
  function ParseNumbers(line: string, kind: IntKind): Option<seq<int>> {
    ParseAll(TrimAll(Words(line)), kind)
  }

  /** Number of leading non-blank lines. */
  function BlockLength(lines: seq<string>): (n: nat)
    ensures n <= |lines|
    ensures forall i :: 0 <= i < n ==> !IsBlank(lines[i])
    ensures n < |lines| ==> IsBlank(lines[n])
  {
    if lines == [] || IsBlank(lines[0]) then 0 else 1 + BlockLength(lines[1..])
  }

  /** The blocks `while lines.peek().is_some() { take_while(non-blank) }`
      yields: each block is the run of non-blank lines up to the next blank
      line, and the blank line that ends a run is consumed with it. */
  function Blocks(lines: seq<string>): seq<seq<string>>
    decreases |lines|
  {
    if lines == [] then []
    else
      var n := BlockLength(lines);
      if n == |lines| then [lines] else [lines[..n]] + Blocks(lines[n + 1..])
  }

  function Flatten<T>(xss: seq<seq<T>>): seq<T> {
    if xss == [] then [] else xss[0] + Flatten(xss[1..])
  }

  function NonBlankLines(lines: seq<string>): seq<string> {
    if lines == [] then []
    else (if IsBlank(lines[0]) then [] else [lines[0]]) + NonBlankLines(lines[1..])
  }

  /** The non-blank lines start with a leading run of non-blank lines. */
  lemma {:induction false} NonBlankRun(lines: seq<string>, n: nat)
    requires n <= |lines|
    requires forall i :: 0 <= i < n ==> !IsBlank(lines[i])
    ensures NonBlankLines(lines) == lines[..n] + NonBlankLines(lines[n..])
  {
    if n > 0 {
      NonBlankRun(lines[1..], n - 1);
      assert lines[1..][..n - 1] == lines[1..n];
      assert lines[1..][n - 1..] == lines[n..];
      assert lines[..n] == [lines[0]] + lines[1..n];
    }
  }

  /** No block holds a blank line. */
  lemma {:induction false} BlocksHaveNoBlank(lines: seq<string>)
    ensures forall k, i :: 0 <= k < |Blocks(lines)| && 0 <= i < |Blocks(lines)[k]| ==> !IsBlank(Blocks(lines)[k][i])
    decreases |lines|
  {
    if lines != [] {
      var n := BlockLength(lines);
      var bs := Blocks(lines);
      if n == |lines| {
        assert bs == [lines];
      } else {
        var rest := lines[n + 1..];
        BlocksHaveNoBlank(rest);
        assert bs == [lines[..n]] + Blocks(rest);
        forall k, i | 0 <= k < |bs| && 0 <= i < |bs[k]| ensures !IsBlank(bs[k][i]) {
          if k > 0 { assert bs[k] == Blocks(rest)[k - 1]; } else { assert bs[0][i] == lines[i]; }
        }
      }
    }
  }

  lemma FlattenCons<T>(x: seq<T>, xss: seq<seq<T>>)
    ensures Flatten([x] + xss) == x + Flatten(xss)
  {
    assert ([x] + xss)[1..] == xss;
  }

  lemma NonBlankSkip(lines: seq<string>)
    requires lines != [] && IsBlank(lines[0])
    ensures NonBlankLines(lines) == NonBlankLines(lines[1..])
  {
    assert NonBlankLines(lines) == [] + NonBlankLines(lines[1..]);
  }

  /** The blocks together are exactly the non-blank lines, in their original order. */
  lemma {:induction false} BlocksFlatten(lines: seq<string>)
    ensures Flatten(Blocks(lines)) == NonBlankLines(lines)
    decreases |lines|
  {
    if lines != [] {
      var n := BlockLength(lines);
      NonBlankRun(lines, n);
      if n == |lines| {
        assert Blocks(lines) == [lines];
        FlattenCons(lines, []);
        assert lines[n..] == [];
        assert lines[..n] == lines;
      } else {
        var rest := lines[n + 1..];
        var tail := lines[n..];
        assert Blocks(lines) == [lines[..n]] + Blocks(rest);
        FlattenCons(lines[..n], Blocks(rest));
        BlocksFlatten(rest);
        assert tail[0] == lines[n] && tail[1..] == rest;
        NonBlankSkip(tail);
      }
    }
  }

  /** `BlockLength` is the length of the leading run of non-blank lines. */
  lemma {:induction false} BlockLengthIs(lines: seq<string>, m: nat)
    requires m <= |lines|
    requires forall i :: 0 <= i < m ==> !IsBlank(lines[i])
    requires m < |lines| ==> IsBlank(lines[m])
    ensures BlockLength(lines) == m
  {
    if m > 0 {
      BlockLengthIs(lines[1..], m - 1);
    }
  }

  /** One step of the splitter: a run of `m` non-blank lines, ended by a
      blank line or by the end of the input, is the first block. */
  lemma BlocksStep(lines: seq<string>, m: nat)
    requires m <= |lines|
    requires forall i :: 0 <= i < m ==> !IsBlank(lines[i])
    requires m < |lines| ==> IsBlank(lines[m])
    ensures m < |lines| ==> Blocks(lines) == [lines[..m]] + Blocks(lines[m + 1..])
    ensures m == |lines| && m > 0 ==> Blocks(lines) == [lines]
  {
    BlockLengthIs(lines, m);
  }

  /** `take_while(non-blank)` from position `start`: the run of non-blank
      lines there, and the position of the line that ended it. */
  method TakeBlock(lines: seq<string>, start: nat) returns (block: seq<string>, k: nat)
    requires start <= |lines|
    ensures start <= k <= |lines|
    ensures block == lines[start..k]
    ensures forall i :: start <= i < k ==> !IsBlank(lines[i])
    ensures k < |lines| ==> IsBlank(lines[k])
  {
    k := start;
    block := [];
    while k < |lines| && !IsBlank(lines[k])
      invariant start <= k <= |lines|
      invariant block == lines[start..k]
      invariant forall i :: start <= i < k ==> !IsBlank(lines[i])
      decreases |lines| - k
    {
      block := block + [lines[k]];
      k := k + 1;
    }
  }

  /** The splitter seen from position `k`: the run of non-blank lines from
      `k` to `end` is the first block, and splitting resumes after the blank
      line that ended it. */
  lemma BlocksAdvance(lines: seq<string>, k: nat, end: nat)
    requires k < |lines| && k <= end <= |lines|
    requires forall i :: k <= i < end ==> !IsBlank(lines[i])
    requires end < |lines| ==> IsBlank(lines[end])
    ensures Blocks(lines[k..]) == [lines[k..end]] + Blocks(lines[if end < |lines| then end + 1 else end..])
  {
    var tail := lines[k..];
    if end < |lines| {
      assert tail[..end - k] == lines[k..end];
      assert tail[end - k + 1..] == lines[end + 1..];
      BlocksStep(tail, end - k);
    } else {
      assert tail == lines[k..end];
      assert lines[end..] == [];
      BlocksStep(tail, end - k);
    }
  }

  /** The loop of `get_blocks_from_raw_data`. */
  method GetBlocks(lines: seq<string>) returns (blocks: seq<seq<string>>)
    ensures blocks == Blocks(lines)
  {
    blocks := [];
    var k := 0;
    while k < |lines|
      invariant 0 <= k <= |lines|
      invariant blocks + Blocks(lines[k..]) == Blocks(lines)
      decreases |lines| - k
    {
      var block, end := TakeBlock(lines, k);
      BlocksAdvance(lines, k, end);
      var next := if end < |lines| then end + 1 else end;
      assert blocks + [block] + Blocks(lines[next..]) == blocks + ([block] + Blocks(lines[next..]));
      blocks := blocks + [block];
      k := next;
    }
    assert lines[k..] == [];
  }

  /** Every row of the grid is as long as the first. */
  predicate Rectangular(grid: seq<seq<char>>) {
    forall x :: 0 <= x < |grid| ==> |grid[x]| == |grid[0]|
  }

  /** `line.chars().collect()` per line: one row per line, one character per column. */
  method CharGrid(lines: seq<string>) returns (grid: seq<seq<char>>)
    ensures |grid| == |lines|
    ensures forall x :: 0 <= x < |grid| ==> grid[x] == lines[x]
  {
    grid := [];
    for x := 0 to |lines|
      invariant |grid| == x
      invariant forall i :: 0 <= i < x ==> grid[i] == lines[i]
    {
      var row := [];
      for y := 0 to |lines[x]|
        invariant row == lines[x][..y]
      {
        row := row + [lines[x][y]];
      }
      grid := grid + [row];
    }
  }

  /** `parse` applied to every line (or block), one after another; `None` once one fails. */
  function EachLine<S, T>(parse: S -> Option<T>, lines: seq<S>): Option<seq<T>> {
    if lines == [] then Some([])
    else match (EachLine(parse, lines[..|lines| - 1]), parse(lines[|lines| - 1]))
      case (Some(xs), Some(x)) => Some(xs + [x])
      case _ => None
  }

  /** Every line is read exactly when each one parses, and item `x` is then
      what line `x` parses to. */
  lemma {:induction false} EachLineParses<S, T>(parse: S -> Option<T>, lines: seq<S>)
    ensures EachLine(parse, lines).Some? <==> forall x :: 0 <= x < |lines| ==> parse(lines[x]).Some?
    ensures EachLine(parse, lines).Some? ==> |EachLine(parse, lines).value| == |lines|
    ensures EachLine(parse, lines).Some? ==> forall x :: 0 <= x < |lines| ==> parse(lines[x]) == Some(EachLine(parse, lines).value[x])
  {
    if lines != [] {
      var front := lines[..|lines| - 1];
      EachLineParses(parse, front);
      assert forall x :: 0 <= x < |front| ==> lines[x] == front[x];
    }
  }

  /** One line more read: the step of a reading loop. */
  lemma EachLineStep<S, T>(parse: S -> Option<T>, lines: seq<S>, x: nat)
    requires x < |lines|
    ensures EachLine(parse, lines[..x + 1]) == match (EachLine(parse, lines[..x]), parse(lines[x]))
      case (Some(xs), Some(y)) => Some(xs + [y])
      case _ => None
  {
    assert lines[..x + 1][..x] == lines[..x];
  }

  /** A line that fails makes every longer run of lines fail. */
  lemma {:induction false} EachLineStaysNone<S, T>(parse: S -> Option<T>, lines: seq<S>, x: nat)
    requires x <= |lines| && EachLine(parse, lines[..x]).None?
    ensures EachLine(parse, lines).None?
    decreases |lines| - x
  {
    if x < |lines| {
      EachLineStep(parse, lines, x);
      EachLineStaysNone(parse, lines, x + 1);
    } else {
      assert lines[..x] == lines;
    }
  }
}
