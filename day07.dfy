/** Day 7: calibration equations `total: a b c`, an evaluator for
    expressions read strictly left to right, and an enumerator of operator
    strings. The expression generator returns no expressions, so no
    equation is ever found valid. */
module Day7 {
  import opened Text

  const U32Max := U32.Max()

  datatype Operation = Operation(total: int, operands: seq<int>)

  /** One line of input: the text before the first `": "` is the total, the
      text after it (up to any second `": "`) the space-separated operands,
      all `u32`. `None` (the program aborts) if there is no `": "` or a
      number does not parse. */
  function ParseOperation(line: string): Option<Operation> {
    ParsePartitions(Split(line, ": "))
  }

  function ParsePartitions(partitions: seq<string>): Option<Operation> {
    if |partitions| < 2 then None
    else match ParseInt(partitions[0], U32)
      case None => None
      case Some(total) =>
        match ParseAll(Split(partitions[1], " "), U32)
        case None => None
        case Some(operands) => Some(Operation(total, operands))
  }

  /** The operations of `lines`, one per line. */
  function Operations(lines: seq<string>): Option<seq<Operation>> {
    EachLine(ParseOperation, lines)
  }

  /** The input is read exactly when every line parses, and operation `x`
      is then what line `x` reads as. */
  lemma OperationsLines(lines: seq<string>)
    ensures Operations(lines).Some? <==> forall x :: 0 <= x < |lines| ==> ParseOperation(lines[x]).Some?
    ensures Operations(lines).Some? ==> |Operations(lines).value| == |lines|
    ensures Operations(lines).Some? ==> forall x :: 0 <= x < |lines| ==> ParseOperation(lines[x]) == Some(Operations(lines).value[x])
  {
    EachLineParses(ParseOperation, lines);
  }

  /** `get_operations_from_raw_data`: one operation per line. */
  method GetOperations(lines: seq<string>) returns (r: Option<seq<Operation>>)
    ensures r == Operations(lines)
  {
    var operations: seq<Operation> := [];
    for x := 0 to |lines|
      invariant EachLine(ParseOperation, lines[..x]) == Some(operations)
    {
      var operation := ParseOperation(lines[x]);
      EachLineStep(ParseOperation, lines, x);
      if operation.None? {
        r := None;
        EachLineStaysNone(ParseOperation, lines, x + 1);
        return;
      }
      operations := operations + [operation.value];
    }
    assert lines[..|lines|] == lines;
    r := Some(operations);
  }

  /** `"t: a b c"` reads as total `t` with operands `[a, b, c]`. */
  lemma ParseOperationRoundTrip(total: nat, operands: seq<nat>)
    requires total <= U32Max && |operands| >= 1
    requires forall k :: 0 <= k < |operands| ==> operands[k] <= U32Max
    ensures ParseOperation(ToDecimal(total) + ": " + Join(Decimals(operands), " ")) == Some(Operation(total, operands))
  {
    var t := ToDecimal(total);
    var ds := Decimals(operands);
    var j := Join(ds, " ");
    assert forall i :: 0 <= i < |t| ==> t[i] != ':' by {
      forall i | 0 <= i < |t| ensures t[i] != ':' { assert IsDigit(t[i]); }
    }
    SplitFirst(t, ": ", j);
    forall k, i | 0 <= k < |ds| && 0 <= i < |ds[k]| ensures ds[k][i] != ':' {
      assert IsDigit(ds[k][i]);
    }
    JoinAvoids(ds, " ", ':');
    forall i ensures !OccursAt(j, ": ", i) {
      if 0 <= i <= |j| - 2 {
        assert j[i..i + 2][0] == j[i];
      }
    }
    SplitNoSeparator(j, ": ");
    assert Split(t + ": " + j, ": ") == [t, j];
    ParseDecimal(total, U32);
    DecimalsSplitJoin(operands, ' ');
    ParseAllDecimals(operands, U32);
  }

  /** The evaluator's variables: the running result and the latest operator token. */
  datatype EvalState = EvalState(result: int, operator: string)

  /** One token: a `u32` literal is combined into the result by the current
      operator (`+` adds, `*` multiplies, anything else leaves the result);
      any other token becomes the current operator. `None` when the `u32`
      arithmetic overflows (the program aborts). */
  function Absorb(st: EvalState, part: string): Option<EvalState> {
    match ParseInt(part, U32)
    case None => Some(EvalState(st.result, part))
    case Some(number) =>
      var result := if st.operator == "+" then st.result + number
        else if st.operator == "*" then st.result * number
        else st.result;
      if result <= U32Max then Some(EvalState(result, st.operator)) else None
  }

  /** The evaluator's state after the given tokens, from 0 and `+`. */
  function EvalTokens(parts: seq<string>): Option<EvalState> {
    if parts == [] then Some(EvalState(0, "+"))
    else match EvalTokens(parts[..|parts| - 1])
      case None => None
      case Some(st) => Absorb(st, parts[|parts| - 1])
  }

  /** The value of a space-separated expression. */
  function Evaluate(expression: string): Option<int> {
    match EvalTokens(Split(expression, " "))
    case None => None
    case Some(st) => Some(st.result)
  }

  /** `evaluate_math_expression`: the tokens are taken from the front one by one. */
  method EvaluateMathExpression(expression: string) returns (r: Option<int>)
    ensures r == Evaluate(expression)
  {
    var parts := Split(expression, " ");
    var result := 0;
    var currentOperator := "+";
    var i := 0;
    while i < |parts|
      invariant 0 <= i <= |parts|
      invariant EvalTokens(parts[..i]) == Some(EvalState(result, currentOperator))
    {
      var part := parts[i];
      EvalSnocAt(parts, i);
      ghost var st := EvalState(result, currentOperator);
      i := i + 1;
      var number := ParseInt(part, U32);
      if number.None? {
        AbsorbWord(st, part);
        currentOperator := part;
        continue;
      }
      result := if currentOperator == "+" then result + number.value
        else if currentOperator == "*" then result * number.value
        else result;
      AbsorbNumber(st, part, number.value, result);
      if result > U32Max {
        EvalStopsAtOverflow(parts, i);
        assert parts[..|parts|] == parts;
        return None;
      }
    }
    assert parts[..i] == parts;
    return Some(result);
  }

  /** A token that is not a number becomes the current operator. */
  lemma AbsorbWord(st: EvalState, part: string)
    requires ParseInt(part, U32).None?
    ensures Absorb(st, part) == Some(EvalState(st.result, part))
  {
  }

  /** A number token is combined by the current operator, or overflows. */
  lemma AbsorbNumber(st: EvalState, part: string, number: int, result: int)
    requires ParseInt(part, U32) == Some(number)
    requires result == if st.operator == "+" then st.result + number
      else if st.operator == "*" then st.result * number
      else st.result
    ensures Absorb(st, part) == if result <= U32Max then Some(EvalState(result, st.operator)) else None
  {
  }

  /** Once the state is lost to an overflow it stays lost. */
  lemma {:induction false} EvalStopsAtOverflow(parts: seq<string>, i: nat)
    requires i <= |parts| && EvalTokens(parts[..i]).None?
    ensures EvalTokens(parts).None?
    decreases |parts| - i
  {
    if i < |parts| {
      assert parts[..i + 1][..i] == parts[..i];
      EvalStopsAtOverflow(parts, i + 1);
    } else {
      assert parts[..i] == parts;
    }
  }

  /** An operator token changes only the current operator; with an operator
      other than `+` or `*` a number leaves the result as it is. */
  lemma OperatorTokens(st: EvalState, part: string)
    ensures ParseInt(part, U32).None? ==> Absorb(st, part) == Some(EvalState(st.result, part))
    ensures st.operator != "+" && st.operator != "*" && st.result <= U32Max ==> Absorb(st, part) == Some(EvalState(st.result, if ParseInt(part, U32).None? then part else st.operator))
  {
  }

  /** An operator and a number following the first number. */
  datatype Term = Term(operator: char, number: nat)

  predicate Arithmetic(first: nat, terms: seq<Term>) {
    first <= U32Max
    && forall k :: 0 <= k < |terms| ==> (terms[k].operator == '+' || terms[k].operator == '*') && terms[k].number <= U32Max
  }

  /** The reference value: the terms folded into the first number from the
      left, with no precedence, failing as soon as a partial result leaves `u32`. */
  function FoldLeft(first: nat, terms: seq<Term>): Option<int> {
    if terms == [] then Some(first)
    else
      var t := terms[|terms| - 1];
      match FoldLeft(first, terms[..|terms| - 1])
      case None => None
      case Some(r) =>
        var v := if t.operator == '+' then r + t.number else r * t.number;
        if v <= U32Max then Some(v) else None
  }

  /** The tokens of `first op1 n1 op2 n2 ...`. */
  function Tokens(first: nat, terms: seq<Term>): (r: seq<string>)
    ensures |r| == 1 + 2 * |terms|
  {
    if terms == [] then [ToDecimal(first)]
    else
      var t := terms[|terms| - 1];
      Tokens(first, terms[..|terms| - 1]) + [[t.operator], ToDecimal(t.number)]
  }

  function LastOperator(terms: seq<Term>): string {
    if terms == [] then "+" else [terms[|terms| - 1].operator]
  }

  lemma {:induction false} EvalTokensFold(first: nat, terms: seq<Term>)
    requires Arithmetic(first, terms)
    ensures EvalTokens(Tokens(first, terms)).Some? <==> FoldLeft(first, terms).Some?
    ensures FoldLeft(first, terms).Some? ==>
      EvalTokens(Tokens(first, terms)) == Some(EvalState(FoldLeft(first, terms).value, LastOperator(terms)))
    decreases |terms|
  {
    if terms == [] {
      ParseDecimal(first, U32);
      assert [ToDecimal(first)][..0] == [];
    } else {
      var n := |terms| - 1;
      assert Arithmetic(first, terms[..n]);
      EvalTokensFold(first, terms[..n]);
      var e := EvalTokens(Tokens(first, terms[..n]));
      if e.Some? {
        EvalTokensFoldStep(first, terms, e.value);
      } else {
        EvalTokensFoldLost(first, terms);
      }
    }
  }

  /** The step of `EvalTokensFold` from a state: an operator token, then a
      number token. */
  lemma EvalTokensFoldStep(first: nat, terms: seq<Term>, st: EvalState)
    requires Arithmetic(first, terms) && terms != []
    requires EvalTokens(Tokens(first, terms[..|terms| - 1])) == Some(st)
    ensures var t := terms[|terms| - 1];
      var v := if t.operator == '+' then st.result + t.number else st.result * t.number;
      EvalTokens(Tokens(first, terms)) == if v <= U32Max then Some(EvalState(v, [t.operator])) else None
  {
    var n := |terms| - 1;
    var t := terms[n];
    TokensSnoc(first, terms);
    OperatorIsNoNumber(t.operator);
    ParseDecimal(t.number, U32);
    EvalTwoTokens(Tokens(first, terms[..n]), st, t, ToDecimal(t.number));
  }

  /** An operator token and a number token after the tokens `front`. */
  lemma EvalTwoTokens(front: seq<string>, st: EvalState, t: Term, text: string)
    requires EvalTokens(front) == Some(st)
    requires t.operator == '+' || t.operator == '*'
    requires ParseInt([t.operator], U32).None? && ParseInt(text, U32) == Some(t.number as int)
    ensures var v := if t.operator == '+' then st.result + t.number else st.result * t.number;
      EvalTokens((front + [[t.operator]]) + [text]) == if v <= U32Max then Some(EvalState(v, [t.operator])) else None
  {
    var op: string := [t.operator];
    EvalSnoc(front, op);
    EvalSnoc(front + [op], text);
    AbsorbTerm(st, t, text);
  }

  /** A lost state stays lost over one more term. */
  lemma EvalTokensFoldLost(first: nat, terms: seq<Term>)
    requires terms != []
    requires EvalTokens(Tokens(first, terms[..|terms| - 1])).None?
    ensures EvalTokens(Tokens(first, terms)).None?
  {
    var n := |terms| - 1;
    var t := terms[n];
    var front := Tokens(first, terms[..n]);
    var op: string := [t.operator];
    TokensSnoc(first, terms);
    EvalSnoc(front, op);
    EvalSnoc(front + [op], ToDecimal(t.number));
  }

  /** The tokens of one more term: its operator, then its number. */
  lemma TokensSnoc(first: nat, terms: seq<Term>)
    requires terms != []
    ensures Tokens(first, terms) == (Tokens(first, terms[..|terms| - 1]) + [[terms[|terms| - 1].operator]]) + [ToDecimal(terms[|terms| - 1].number)]
  {
  }

  /** The operator characters do not read as numbers. */
  lemma OperatorIsNoNumber(c: char)
    requires c == '+' || c == '*'
    ensures ParseInt([c], U32).None?
  {
    var op: string := [c];
    if c == '*' { assert !IsDigit(op[0]); }
  }

  /** An operator token and then a number token fold the number in. */
  lemma AbsorbTerm(st: EvalState, t: Term, text: string)
    requires t.operator == '+' || t.operator == '*'
    requires ParseInt([t.operator], U32).None? && ParseInt(text, U32) == Some(t.number as int)
    ensures Absorb(st, [t.operator]) == Some(EvalState(st.result, [t.operator]))
    ensures Absorb(EvalState(st.result, [t.operator]), text) ==
      var v := if t.operator == '+' then st.result + t.number else st.result * t.number;
      if v <= U32Max then Some(EvalState(v, [t.operator])) else None
  {
    var op: string := [t.operator];
    assert op == "+" <==> t.operator == '+';
    assert op == "*" <==> t.operator == '*';
  }

  /** The state after the first `i + 1` tokens. */
  lemma EvalSnocAt(parts: seq<string>, i: nat)
    requires i < |parts|
    ensures EvalTokens(parts[..i + 1]) == match EvalTokens(parts[..i]) case None => None case Some(st) => Absorb(st, parts[i])
  {
    assert parts[..i + 1][..i] == parts[..i];
  }

  /** One more token is absorbed into the state after the earlier ones. */
  lemma EvalSnoc(parts: seq<string>, p: string)
    ensures EvalTokens(parts + [p]) == match EvalTokens(parts) case None => None case Some(st) => Absorb(st, p)
  {
    assert (parts + [p])[..|parts|] == parts;
  }

  /** An expression written out with `+` and `*` evaluates from left to right,
      with no precedence: it gives the left fold of its terms, or fails on overflow. */
  lemma EvaluateWrittenExpression(first: nat, terms: seq<Term>)
    requires Arithmetic(first, terms)
    ensures Evaluate(Join(Tokens(first, terms), " ")) == FoldLeft(first, terms)
  {
    var toks := Tokens(first, terms);
    forall k, i | 0 <= k < |toks| && 0 <= i < |toks[k]| ensures toks[k][i] != ' ' {
      TokensAvoidSpace(first, terms, k, i);
    }
    SplitJoinInverse(toks, ' ');
    EvalTokensFold(first, terms);
  }

  lemma {:induction false} TokensAvoidSpace(first: nat, terms: seq<Term>, k: nat, i: nat)
    requires Arithmetic(first, terms)
    requires k < |Tokens(first, terms)| && i < |Tokens(first, terms)[k]|
    ensures Tokens(first, terms)[k][i] != ' '
    decreases |terms|
  {
    var toks := Tokens(first, terms);
    if terms == [] {
      assert IsDigit(toks[k][i]);
    } else {
      var n := |terms| - 1;
      var front := Tokens(first, terms[..n]);
      assert Arithmetic(first, terms[..n]);
      if k < |front| {
        assert toks[k] == front[k];
        TokensAvoidSpace(first, terms[..n], k, i);
      } else if k == |front| + 1 {
        assert IsDigit(toks[k][i]);
      }
    }
  }

  /** `2 + 3 * 4` evaluates to 20, not 14. */
  lemma NoPrecedence()
    ensures Evaluate("2 + 3 * 4") == Some(20)
  {
    var terms := [Term('+', 3), Term('*', 4)];
    NoPrecedenceTokens();
    NoPrecedenceJoin();
    EvaluateWrittenExpression(2, terms);
  }

  lemma NoPrecedenceTokens()
    ensures Tokens(2, [Term('+', 3), Term('*', 4)]) == ["2", "+", "3", "*", "4"]
  {
    var terms := [Term('+', 3), Term('*', 4)];
    assert ToDecimal(2) == "2" && ToDecimal(3) == "3" && ToDecimal(4) == "4";
    assert terms[..1] == [Term('+', 3)] && terms[..1][..0] == [];
    assert Tokens(2, terms[..1]) == ["2", "+", "3"];
  }

  lemma NoPrecedenceJoin()
    ensures Join(["2", "+", "3", "*", "4"], " ") == "2 + 3 * 4"
  {
    var toks := ["2", "+", "3", "*", "4"];
    assert Join(toks[4..], " ") == "4";
    assert Join(toks[3..], " ") == "* 4";
    assert Join(toks[2..], " ") == "3 * 4";
    assert Join(toks[1..], " ") == "+ 3 * 4";
  }

  const ValidOperators: seq<char> := ['+', '*']

  /** `2^m`. */
  function Pow2(m: nat): (r: nat)
    ensures r >= 1
  {
    if m == 0 then 1 else 2 * Pow2(m - 1)
  }

  /** `2^m` operator characters alternating `+`, `*`. */
  function Alternating(m: nat): (r: seq<char>)
    ensures |r| == Pow2(m)
  {
    seq(Pow2(m), i => if i % 2 == 0 then '+' else '*')
  }

  /** `Vec::pop` whose result is discarded: empty stays empty. */
  function Pop(v: seq<char>): seq<char> {
    if v == [] then [] else v[..|v| - 1]
  }

  /** What the children `ops` of a node at depth `depth` append: one
      operator each at the target depth, otherwise a full alternating block each. */
  function Children(ops: seq<char>, depth: nat, target: nat): seq<char>
    requires depth <= target
  {
    if ops == [] then []
    else Children(ops[..|ops| - 1], depth, target) + (if depth == target then [ops[|ops| - 1]] else Alternating(target - depth))
  }

  /** The children up to and including child `i`. */
  lemma ChildrenSnoc(ops: seq<char>, i: nat, depth: nat, target: nat)
    requires i < |ops| && depth <= target
    ensures Children(ops[..i + 1], depth, target) ==
      Children(ops[..i], depth, target) + (if depth == target then [ops[i]] else Alternating(target - depth))
  {
    assert ops[..i + 1][..i] == ops[..i];
  }

  /** The two children of a node append two operators at the target depth,
      and otherwise two copies of the alternating block below them: either
      way the alternating block one level taller. */
  lemma ChildrenBlock(depth: nat, target: nat)
    requires depth <= target
    ensures Children(ValidOperators, depth, target) == Alternating(target - depth + 1)
  {
    ChildrenOfBoth(depth, target);
    if depth == target {
      AlternatingOne();
    } else {
      AlternatingTwice(target - depth);
    }
  }

  /** The children `+` and `*` of one node, appended in turn. */
  lemma ChildrenOfBoth(depth: nat, target: nat)
    requires depth <= target
    ensures Children(ValidOperators, depth, target) ==
      if depth == target then ['+', '*'] else Alternating(target - depth) + Alternating(target - depth)
  {
    var vs := ValidOperators;
    assert vs[..2] == vs && vs[..2][..1] == vs[..1] && vs[..1][..0] == [];
    assert Children(vs[..1], depth, target) == Children([], depth, target) + (if depth == target then ['+'] else Alternating(target - depth));
    assert Children(vs, depth, target) == Children(vs[..1], depth, target) + (if depth == target then ['*'] else Alternating(target - depth));
  }

  /** The alternating block of height 1 is `+*`. */
  lemma AlternatingOne()
    ensures Alternating(1) == ['+', '*']
  {
    assert Pow2(1) == 2;
  }

  /** Two alternating blocks one after the other make the block one level
      taller, as each has even length. */
  lemma AlternatingTwice(m: nat)
    requires m >= 1
    ensures Alternating(m) + Alternating(m) == Alternating(m + 1)
  {
    var a := Alternating(m);
    var b := Alternating(m + 1);
    var h := Pow2(m - 1);
    assert |a| == 2 * h;
    assert |b| == 2 * |a|;
    forall i | 0 <= i < |b| ensures b[i] == (a + a)[i] {
      if i >= |a| {
        assert i - |a| + 2 * h == i;
        assert (i - |a|) % 2 == i % 2;
      }
    }
  }

  /** `get_operators_for_operand`: at the target depth the node's operator is
      pushed; otherwise a root `r` first pops the vector, and each valid
      operator recurses one level deeper. The recursion is what the source
      does; the contract gives the outcome in closed form. */
  method OperatorsForOperand(validOperator: char, depth: nat, possibleVariations: nat, vector: seq<char>) returns (v: seq<char>)
    requires depth <= possibleVariations / 2
    ensures depth == possibleVariations / 2 ==> v == vector + [validOperator]
    ensures depth < possibleVariations / 2 ==>
      v == (if validOperator == 'r' then Pop(vector) else vector) + Alternating(possibleVariations / 2 - depth)
    decreases possibleVariations / 2 - depth
  {
    var target := possibleVariations / 2;
    if depth == target {
      return vector + [validOperator];
    }
    v := vector;
    if validOperator == 'r' {
      v := Pop(v);
    }
    ghost var base := v;
    for i := 0 to |ValidOperators|
      invariant v == base + Children(ValidOperators[..i], depth + 1, target)
    {
      ghost var before := v;
      v := OperatorsForOperand(ValidOperators[i], depth + 1, possibleVariations, v);
      ChildStep(base, before, v, i, depth + 1, target);
    }
    assert ValidOperators[..|ValidOperators|] == ValidOperators;
    ChildrenBlock(depth + 1, target);
  }

  /** One child appended in the loop of `OperatorsForOperand`. */
  lemma ChildStep(base: seq<char>, before: seq<char>, after: seq<char>, i: nat, depth: nat, target: nat)
    requires i < |ValidOperators| && depth <= target
    requires before == base + Children(ValidOperators[..i], depth, target)
    requires depth == target ==> after == before + [ValidOperators[i]]
    requires depth < target ==> after == before + Alternating(target - depth)
    ensures after == base + Children(ValidOperators[..i + 1], depth, target)
  {
    ChildrenSnoc(ValidOperators, i, depth, target);
  }

  /** `generate_test_expressions_operation`: it works out the operator string
      for `2 * (n - 1)` variants (kept as `u32`), from a root `r` at depth 0,
      and returns an empty list of expressions. An operation without operands
      makes `n - 1` underflow (the program aborts), hence the precondition. */
  method GenerateTestExpressions(operation: Operation) returns (expressions: seq<string>, operators: seq<char>)
    requires |operation.operands| >= 1
    ensures expressions == []
    ensures var k := ((|operation.operands| - 1) * 2 % 0x1_0000_0000) / 2;
      operators == if k == 0 then ['r'] else Alternating(k)
    ensures |operation.operands| <= 0x8000_0000 ==>
      operators == if |operation.operands| == 1 then ['r'] else Alternating(|operation.operands| - 1)
  {
    expressions := [];
    var numPossibleVariant := (|operation.operands| - 1) * 2;
    operators := OperatorsForOperand('r', 0, numPossibleVariant % 0x1_0000_0000, []);
  }

  /** The copies of `operation` pushed for the expressions that evaluate to
      its total, in order; `None` if an evaluation overflows. */
  function Matching(operation: Operation, expressions: seq<string>): Option<seq<Operation>> {
    if expressions == [] then Some([])
    else match Matching(operation, expressions[..|expressions| - 1])
      case None => None
      case Some(kept) =>
        match Evaluate(expressions[|expressions| - 1])
        case None => None
        case Some(result) => Some(kept + (if result == operation.total then [operation] else []))
  }

  /** The inner loop of `get_valid_operations`, over one operation's expressions. */
  method MatchExpressions(operation: Operation, expressions: seq<string>) returns (r: Option<seq<Operation>>)
    ensures r == Matching(operation, expressions)
  {
    var kept: seq<Operation> := [];
    for i := 0 to |expressions|
      invariant Matching(operation, expressions[..i]) == Some(kept)
    {
      assert expressions[..i + 1][..i] == expressions[..i];
      var result := EvaluateMathExpression(expressions[i]);
      assert Matching(operation, expressions[..i + 1]) == match Evaluate(expressions[i])
        case None => None
        case Some(v) => Some(kept + (if v == operation.total then [operation] else []));
      if result.None? {
        MatchingStopsAtOverflow(operation, expressions, i + 1);
        return None;
      }
      if result.value == operation.total {
        kept := kept + [operation];
      } else {
        assert kept + [] == kept;
      }
    }
    assert expressions[..|expressions|] == expressions;
    return Some(kept);
  }

  lemma {:induction false} MatchingStopsAtOverflow(operation: Operation, expressions: seq<string>, i: nat)
    requires i <= |expressions| && Matching(operation, expressions[..i]).None?
    ensures Matching(operation, expressions).None?
    decreases |expressions| - i
  {
    if i < |expressions| {
      assert expressions[..i + 1][..i] == expressions[..i];
      MatchingStopsAtOverflow(operation, expressions, i + 1);
    } else {
      assert expressions[..i] == expressions;
    }
  }

  /** Every pushed entry is the operation itself, once per expression that
      evaluates to its total. */
  lemma {:induction false} MatchingCopies(operation: Operation, expressions: seq<string>)
    requires Matching(operation, expressions).Some?
    ensures forall k :: 0 <= k < |Matching(operation, expressions).value| ==> Matching(operation, expressions).value[k] == operation
    ensures |Matching(operation, expressions).value| <= |expressions|
  {
    if expressions != [] {
      MatchingCopies(operation, expressions[..|expressions| - 1]);
    }
  }

  /** `get_valid_operations`: each operation is kept once per generated
      expression that evaluates to its total. As no expressions are
      generated, nothing is kept. */
  method GetValidOperations(operations: seq<Operation>) returns (valid: seq<Operation>)
    requires forall x :: 0 <= x < |operations| ==> |operations[x].operands| >= 1
    ensures valid == []
  {
    valid := [];
    for x := 0 to |operations|
      invariant valid == []
    {
      var expressions, _ := GenerateTestExpressions(operations[x]);
      var kept := MatchExpressions(operations[x], expressions);
      valid := valid + kept.value;
    }
  }

  function SumTotals(operations: seq<Operation>): int {
    if operations == [] then 0 else SumTotals(operations[..|operations| - 1]) + operations[|operations| - 1].total
  }

  /** `get_total_calibaration_result`. */
  method TotalCalibrationResult(operations: seq<Operation>) returns (sum: int)
    ensures sum == SumTotals(operations)
  {
    sum := 0;
    for x := 0 to |operations|
      invariant sum == SumTotals(operations[..x])
    {
      assert operations[..x + 1][..x] == operations[..x];
      sum := sum + operations[x].total;
    }
    assert operations[..|operations|] == operations;
  }

  /** The operands of a parsed line are never empty. */
  lemma ParsedOperandsNonEmpty(line: string)
    requires ParseOperation(line).Some?
    ensures |ParseOperation(line).value.operands| >= 1
  {
  }

  /** The program: parse, keep the valid operations, add their totals. The
      answer is 0 for every input that parses. */
  method Solve(lines: seq<string>) returns (r: Option<int>)
    ensures r.Some? <==> forall x :: 0 <= x < |lines| ==> ParseOperation(lines[x]).Some?
    ensures r.Some? ==> r.value == 0
  {
    var operations := GetOperations(lines);
    OperationsLines(lines);
    if operations.None? {
      return None;
    }
    forall x | 0 <= x < |operations.value| ensures |operations.value[x].operands| >= 1 {
      ParsedOperandsNonEmpty(lines[x]);
    }
    var valid := GetValidOperations(operations.value);
    var total := TotalCalibrationResult(valid);
    return Some(total);
  }
}
