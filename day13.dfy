/** Day 13: claw machines. Button A moves the claw by one offset, button B
    by another, and the prize sits at a position shifted by a common offset.
    The presses are solved by Cramer's rule under truncating division, a
    machine is won when the presses land on the prize, and the answer adds
    up the token costs (3 per A press, 1 per B press) of the won machines. */
module Day13 {
  import opened Text
  import opened Ints

  /** Tokens per press of button A and of button B. */
  const CostA: int := 3
  const CostB: int := 1

  datatype Offset = Offset(x: int, y: int)

  datatype ClawMachine = ClawMachine(a: Offset, b: Offset, prize: Offset)

  /** What one machine gives: the cost of winning it, no prize (`None` in
      the source), or a division by zero, which aborts the program. */
  datatype Outcome = Fault | NoPrize | Prize(cost: int)

  // ---------------------------------------------------------------------
  // Solving one machine
  // ---------------------------------------------------------------------

  /** The prize position shifted by the unit offset (a `u64` read as `i64`). */
  function Target(m: ClawMachine, offset: nat): Offset
    requires offset < TwoTo64
  {
    Offset(m.prize.x + AsI64(offset), m.prize.y + AsI64(offset))
  }

  /** The determinant that divides the presses of A; the one for B is its negation. */
  function Determinant(m: ClawMachine): int {
    m.b.y * m.a.x - m.b.x * m.a.y
  }

  /** `na` presses of A and `nb` of B move the claw exactly onto `t`. */
  predicate Lands(m: ClawMachine, t: Offset, na: int, nb: int) {
    na * m.a.x + nb * m.b.x == t.x && na * m.a.y + nb * m.b.y == t.y
  }

  /** The button limit: 0 disables it, otherwise both counts stay below it
      (the `u64` limit being compared as an `i64`). */
  predicate WithinLimit(limit: nat, na: int, nb: int)
    requires limit < TwoTo64
  {
    limit == 0 || (na < AsI64(limit) && nb < AsI64(limit))
  }

  function PressesA(m: ClawMachine, t: Offset): int
    requires Determinant(m) != 0
  {
    TDiv(m.b.y * t.x - m.b.x * t.y, Determinant(m))
  }

  function PressesB(m: ClawMachine, t: Offset): int
    requires Determinant(m) != 0
  {
    assert m.a.y * m.b.x - m.a.x * m.b.y == -Determinant(m);
    TDiv(m.a.y * t.x - m.a.x * t.y, m.a.y * m.b.x - m.a.x * m.b.y)
  }

  /** Cramer's rule: when the target is an exact integer combination of the
      buttons, the two quotients are that combination. */
  lemma CramerSolves(m: ClawMachine, t: Offset, na: int, nb: int)
    requires Determinant(m) != 0 && Lands(m, t, na, nb)
    ensures PressesA(m, t) == na && PressesB(m, t) == nb
  {
    var d := Determinant(m);
    var e := m.a.y * m.b.x - m.a.x * m.b.y;
    CramerNumerators(m, t, na, nb);
    TDivExact(na, d);
    assert e == -d;
    TDivExact(nb, e);
  }

  lemma CramerNumerators(m: ClawMachine, t: Offset, na: int, nb: int)
    requires Lands(m, t, na, nb)
    ensures m.b.y * t.x - m.b.x * t.y == na * Determinant(m)
    ensures m.a.y * t.x - m.a.x * t.y == nb * (m.a.y * m.b.x - m.a.x * m.b.y)
  {
    var ux, uy, vx, vy := m.a.x, m.a.y, m.b.x, m.b.y;
    calc {
      vy * t.x - vx * t.y;
      vy * (na * ux + nb * vx) - vx * (na * uy + nb * vy);
      na * (vy * ux) + nb * (vy * vx) - na * (vx * uy) - nb * (vx * vy);
      na * (vy * ux - vx * uy);
    }
    calc {
      uy * t.x - ux * t.y;
      uy * (na * ux + nb * vx) - ux * (na * uy + nb * vy);
      na * (uy * ux) + nb * (uy * vx) - na * (ux * uy) - nb * (ux * vy);
      nb * (uy * vx - ux * vy);
    }
  }

  /** With a non-zero determinant the presses that land on a target are unique. */
  lemma LandingUnique(m: ClawMachine, t: Offset, na: int, nb: int, na': int, nb': int)
    requires Determinant(m) != 0 && Lands(m, t, na, nb) && Lands(m, t, na', nb')
    ensures na == na' && nb == nb'
  {
    CramerSolves(m, t, na, nb);
    CramerSolves(m, t, na', nb');
  }

  /** `get_min_token_cost_to_reach_prize` as written: the prize is refused
      only when BOTH equations miss, so presses that satisfy one of them pass. */
  function MinTokenCostAsWritten(m: ClawMachine, offset: nat, limit: nat): Outcome
    requires offset < TwoTo64 && limit < TwoTo64
  {
    if Determinant(m) == 0 then Fault
    else
      var t := Target(m, offset);
      var na := PressesA(m, t);
      var nb := PressesB(m, t);
      if na * m.a.x + nb * m.b.x != t.x && na * m.a.y + nb * m.b.y != t.y then NoPrize
      else if limit > 0 && (na >= AsI64(limit) || nb >= AsI64(limit)) then NoPrize
      else Prize(CostA * na + CostB * nb)
  }

  /** The source's check: a division fault exactly for a zero determinant;
      otherwise a prize exactly when one equation holds and the limit is
      kept, and every exact solution within the limit is found. */
  lemma AsWrittenOutcome(m: ClawMachine, offset: nat, limit: nat)
    requires offset < TwoTo64 && limit < TwoTo64
    ensures MinTokenCostAsWritten(m, offset, limit).Fault? <==> Determinant(m) == 0
    ensures Determinant(m) != 0 ==>
      var t := Target(m, offset);
      var na := PressesA(m, t);
      var nb := PressesB(m, t);
      (MinTokenCostAsWritten(m, offset, limit).Prize? <==>
        (na * m.a.x + nb * m.b.x == t.x || na * m.a.y + nb * m.b.y == t.y) && WithinLimit(limit, na, nb))
    ensures forall na, nb :: Determinant(m) != 0 && Lands(m, Target(m, offset), na, nb) && WithinLimit(limit, na, nb) ==>
      MinTokenCostAsWritten(m, offset, limit) == Prize(CostA * na + CostB * nb)
  {
    forall na, nb | Determinant(m) != 0 && Lands(m, Target(m, offset), na, nb) && WithinLimit(limit, na, nb)
      ensures MinTokenCostAsWritten(m, offset, limit) == Prize(CostA * na + CostB * nb)
    {
      CramerSolves(m, Target(m, offset), na, nb);
    }
  }

  /** Presses that win the machine: a non-negative number of each, landing
      on the target, within the limit. */
  predicate Wins(m: ClawMachine, t: Offset, limit: nat, na: int, nb: int)
    requires limit < TwoTo64
  {
    na >= 0 && nb >= 0 && Lands(m, t, na, nb) && WithinLimit(limit, na, nb)
  }

  /** The token cost with the check evidently intended: both equations must
      hold (`||` in the refusal) and neither count may be negative. */
  function MinTokenCost(m: ClawMachine, offset: nat, limit: nat): Outcome
    requires offset < TwoTo64 && limit < TwoTo64
  {
    if Determinant(m) == 0 then Fault
    else
      var t := Target(m, offset);
      var na := PressesA(m, t);
      var nb := PressesB(m, t);
      if na * m.a.x + nb * m.b.x != t.x || na * m.a.y + nb * m.b.y != t.y || na < 0 || nb < 0 then NoPrize
      else if limit > 0 && (na >= AsI64(limit) || nb >= AsI64(limit)) then NoPrize
      else Prize(CostA * na + CostB * nb)
  }

  /** A fault exactly for a zero determinant; a prize exactly when some
      presses win the machine, at the cost of those (unique) presses. */
  lemma MinTokenCostWins(m: ClawMachine, offset: nat, limit: nat)
    requires offset < TwoTo64 && limit < TwoTo64
    ensures MinTokenCost(m, offset, limit).Fault? <==> Determinant(m) == 0
    ensures MinTokenCost(m, offset, limit).Prize? ==>
      exists na, nb :: Wins(m, Target(m, offset), limit, na, nb) && MinTokenCost(m, offset, limit).cost == CostA * na + CostB * nb
    ensures forall na, nb :: Determinant(m) != 0 && Wins(m, Target(m, offset), limit, na, nb) ==>
      MinTokenCost(m, offset, limit) == Prize(CostA * na + CostB * nb)
  {
    if Determinant(m) != 0 {
      var t := Target(m, offset);
      forall na, nb | Wins(m, t, limit, na, nb)
        ensures MinTokenCost(m, offset, limit) == Prize(CostA * na + CostB * nb)
      {
        CramerSolves(m, t, na, nb);
      }
      if MinTokenCost(m, offset, limit).Prize? {
        assert Wins(m, t, limit, PressesA(m, t), PressesB(m, t));
      }
    }
  }

  /** A won machine never costs a negative number of tokens. */
  lemma MinTokenCostNonNegative(m: ClawMachine, offset: nat, limit: nat)
    requires offset < TwoTo64 && limit < TwoTo64
    ensures MinTokenCost(m, offset, limit).Prize? ==> MinTokenCost(m, offset, limit).cost >= 0
  {
  }

  /** Buttons (2, 1) and (1, 2) with the prize at (1, 4): no whole number of
      presses reaches it, yet the check as written accepts 0 and 2 presses,
      which land on the right y but the wrong x. */
  lemma HalfMatchAccepted()
    ensures var m := ClawMachine(Offset(2, 1), Offset(1, 2), Offset(1, 4));
      && (forall na, nb :: !Lands(m, Target(m, 0), na, nb))
      && MinTokenCostAsWritten(m, 0, 0) == Prize(2)
      && MinTokenCost(m, 0, 0) == NoPrize
  {
    var m := ClawMachine(Offset(2, 1), Offset(1, 2), Offset(1, 4));
    assert Target(m, 0) == Offset(1, 4);
    assert TDiv(-2, 3) == 0;
    assert TDiv(-7, -3) == 2;
  }

  /** Buttons (1, 1) and (2, 1) with the prize at (0, 1): the only solution
      presses B minus once, and the source accepts it at a cost of 5. */
  lemma NegativePressesAccepted()
    ensures var m := ClawMachine(Offset(1, 1), Offset(2, 1), Offset(0, 1));
      && (forall na, nb :: !Wins(m, Target(m, 0), 0, na, nb))
      && MinTokenCostAsWritten(m, 0, 0) == Prize(5)
      && MinTokenCost(m, 0, 0) == NoPrize
  {
    var m := ClawMachine(Offset(1, 1), Offset(2, 1), Offset(0, 1));
    assert Target(m, 0) == Offset(0, 1);
    assert TDiv(-2, -1) == 2;
    assert TDiv(-1, 1) == -1;
  }

  // ---------------------------------------------------------------------
  // The total
  // ---------------------------------------------------------------------

  /** Which refusal test a total applies: the one the source has, or the
      corrected one. */
  datatype Check = AsWritten | Intended

  /** One machine's outcome under the chosen test. */
  function CostOf(m: ClawMachine, offset: nat, limit: nat, check: Check): (r: Outcome)
    requires offset < TwoTo64 && limit < TwoTo64
    ensures r.Fault? <==> Determinant(m) == 0
  {
    if check == AsWritten then MinTokenCostAsWritten(m, offset, limit) else MinTokenCost(m, offset, limit)
  }

  /** The loop of `main`: the costs added up, a machine without a prize
      counting 0; `None` once a machine faults, which aborts the program.
      The program itself is `TotalCost(machines, offset, limit, AsWritten)`. */
  function TotalCost(machines: seq<ClawMachine>, offset: nat, limit: nat, check: Check): Option<int>
    requires offset < TwoTo64 && limit < TwoTo64
  {
    if machines == [] then Some(0)
    else match (TotalCost(machines[..|machines| - 1], offset, limit, check), CostOf(machines[|machines| - 1], offset, limit, check))
      case (None, _) => None
      case (_, Fault) => None
      case (Some(sum), NoPrize) => Some(sum)
      case (Some(sum), Prize(cost)) => Some(sum + cost)
  }

  /** The summing loop of `main`, with the check as written. */
  method TotalMinTokens(machines: seq<ClawMachine>, offset: nat, limit: nat) returns (r: Option<int>)
    requires offset < TwoTo64 && limit < TwoTo64
    ensures r == TotalCost(machines, offset, limit, AsWritten)
  {
    var total := 0;
    for i := 0 to |machines|
      invariant TotalCost(machines[..i], offset, limit, AsWritten) == Some(total)
    {
      assert machines[..i + 1][..i] == machines[..i];
      var cost := MinTokenCostAsWritten(machines[i], offset, limit);
      if cost.Fault? {
        TotalStaysNone(machines, offset, limit, AsWritten, i + 1);
        return None;
      }
      if cost.Prize? {
        total := total + cost.cost;
      }
    }
    assert machines[..|machines|] == machines;
    r := Some(total);
  }

  lemma {:induction false} TotalStaysNone(machines: seq<ClawMachine>, offset: nat, limit: nat, check: Check, i: nat)
    requires offset < TwoTo64 && limit < TwoTo64
    requires i <= |machines| && TotalCost(machines[..i], offset, limit, check).None?
    ensures TotalCost(machines, offset, limit, check).None?
    decreases |machines| - i
  {
    if i < |machines| {
      assert machines[..i + 1][..i] == machines[..i];
      TotalStaysNone(machines, offset, limit, check, i + 1);
    } else {
      assert machines[..i] == machines;
    }
  }

  /** The total exists exactly when no machine has a zero determinant,
      under either check. */
  lemma {:induction false} TotalFaults(machines: seq<ClawMachine>, offset: nat, limit: nat, check: Check)
    requires offset < TwoTo64 && limit < TwoTo64
    ensures TotalCost(machines, offset, limit, check).None? <==>
      exists i :: 0 <= i < |machines| && Determinant(machines[i]) == 0
  {
    if machines != [] {
      var front := machines[..|machines| - 1];
      TotalFaults(front, offset, limit, check);
      assert forall i :: 0 <= i < |front| ==> front[i] == machines[i];
    }
  }

  /** The total of a concatenation is the sum of the two totals. */
  lemma {:induction false} TotalAppend(front: seq<ClawMachine>, back: seq<ClawMachine>, offset: nat, limit: nat, check: Check)
    requires offset < TwoTo64 && limit < TwoTo64
    ensures TotalCost(front + back, offset, limit, check) ==
      match (TotalCost(front, offset, limit, check), TotalCost(back, offset, limit, check))
      case (Some(s), Some(t)) => Some(s + t)
      case _ => None
    decreases |back|
  {
    if back == [] {
      assert front + back == front;
    } else {
      var all := front + back;
      var rest := back[..|back| - 1];
      assert all[..|all| - 1] == front + rest;
      assert all[|all| - 1] == back[|back| - 1];
      TotalAppend(front, rest, offset, limit, check);
    }
  }

  /** With the intended check the total is never negative. */
  lemma {:induction false} TotalNonNegative(machines: seq<ClawMachine>, offset: nat, limit: nat)
    requires offset < TwoTo64 && limit < TwoTo64
    ensures TotalCost(machines, offset, limit, Intended).Some? ==> TotalCost(machines, offset, limit, Intended).value >= 0
  {
    if machines != [] {
      TotalNonNegative(machines[..|machines| - 1], offset, limit);
      MinTokenCostNonNegative(machines[|machines| - 1], offset, limit);
    }
  }

  /** With the check as written the total can be negative, and it differs
      from the intended total: one machine priced at -1 (A pressed minus
      once and B twice land exactly on the prize), and the machine of
      `NegativePressesAccepted`, which adds 5 where nothing should be added. */
  lemma TotalsDiffer()
    ensures var m := ClawMachine(Offset(1, 1), Offset(1, 2), Offset(1, 3));
      TotalCost([m], 0, 0, AsWritten) == Some(-1) && TotalCost([m], 0, 0, Intended) == Some(0)
    ensures var m := ClawMachine(Offset(1, 1), Offset(2, 1), Offset(0, 1));
      TotalCost([m], 0, 0, AsWritten) == Some(5) && TotalCost([m], 0, 0, Intended) == Some(0)
  {
    var m := ClawMachine(Offset(1, 1), Offset(1, 2), Offset(1, 3));
    assert [m][..0] == [];
    assert Target(m, 0) == Offset(1, 3);
    assert TDiv(-1, 1) == -1;
    assert TDiv(-2, -1) == 2;
    NegativePressesAccepted();
    var m' := ClawMachine(Offset(1, 1), Offset(2, 1), Offset(0, 1));
    assert [m'][..0] == [];
  }

  // ---------------------------------------------------------------------
  // Reading the machines
  // ---------------------------------------------------------------------

  predicate IsSign(c: char) {
    c == '+' || c == '='
  }

  /** Length of the run of decimal digits starting at `i`. */
  function DigitRun(line: string, i: nat): (n: nat)
    requires i <= |line|
    ensures i + n <= |line|
    ensures forall k :: i <= k < i + n ==> IsDigit(line[k])
    ensures i + n < |line| ==> !IsDigit(line[i + n])
    decreases |line| - i
  {
    if i < |line| && IsDigit(line[i]) then 1 + DigitRun(line, i + 1) else 0
  }

  /** The two groups a match of `X[+=]([0-9]*), Y[+=]([0-9]*)` captures. */
  datatype Capture = Capture(x: string, y: string)

  /** The match of `X[+=]([0-9]*), Y[+=]([0-9]*)` that starts at `i`, if
      any, with the position where it ends. Both digit runs are maximal:
      the first is followed by `,`, and `*` is greedy. */
  function MatchAt(line: string, i: nat): (r: Option<(Capture, nat)>)
    requires i <= |line|
    ensures r.Some? ==> i < r.value.1 <= |line|
    ensures r.Some? ==> AllDigits(r.value.0.x) && AllDigits(r.value.0.y)
  {
    if i + 2 <= |line| && line[i] == 'X' && IsSign(line[i + 1]) then
      var j := i + 2 + DigitRun(line, i + 2);
      if j + 4 <= |line| && line[j] == ',' && line[j + 1] == ' ' && line[j + 2] == 'Y' && IsSign(line[j + 3]) then
        var end := j + 4 + DigitRun(line, j + 4);
        Some((Capture(line[i + 2..j], line[j + 4..end]), end))
      else None
    else None
  }

  /** `captures_iter` from position `i`: the leftmost match, then the
      matches after its end. */
  function Captures(line: string, i: nat): (r: seq<Capture>)
    requires i <= |line|
    ensures forall k :: 0 <= k < |r| ==> AllDigits(r[k].x) && AllDigits(r[k].y)
    decreases |line| - i
  {
    if i == |line| then []
    else match MatchAt(line, i)
      case Some((c, end)) => [c] + Captures(line, end)
      case None => Captures(line, i + 1)
  }

  /** The captures of every line of a block, in order. */
  function BlockCaptures(block: seq<string>): seq<Capture> {
    if block == [] then [] else BlockCaptures(block[..|block| - 1]) + Captures(block[|block| - 1], 0)
  }

  /** Both captured groups parsed as `i64`. */
  function ParseOffset(c: Capture): Option<Offset> {
    match (ParseInt(c.x, I64), ParseInt(c.y, I64))
    case (Some(x), Some(y)) => Some(Offset(x, y))
    case _ => None
  }

  /** A captured group of digits fails to parse exactly when it is empty
      or too large for an `i64`. */
  lemma ParseOffsetFails(c: Capture)
    requires AllDigits(c.x) && AllDigits(c.y)
    ensures ParseOffset(c).Some? <==>
      |c.x| > 0 && |c.y| > 0 && DigitsValue(c.x) <= I64.Max() && DigitsValue(c.y) <= I64.Max()
    ensures ParseOffset(c).Some? ==> ParseOffset(c).value == Offset(DigitsValue(c.x), DigitsValue(c.y))
  {
    if |c.x| > 0 {
      assert IsDigit(c.x[0]);
    }
    if |c.y| > 0 {
      assert IsDigit(c.y[0]);
    }
  }

  /** The first three captures give button A, button B and the prize;
      fewer captures, or a group that does not parse, abort the program. */
  function MachineFrom(caps: seq<Capture>): Option<ClawMachine> {
    if |caps| < 3 then None
    else match (ParseOffset(caps[0]), ParseOffset(caps[1]), ParseOffset(caps[2]))
      case (Some(a), Some(b), Some(p)) => Some(ClawMachine(a, b, p))
      case _ => None
  }

  function MachineOf(block: seq<string>): Option<ClawMachine> {
    MachineFrom(BlockCaptures(block))
  }

  /** Every block read as a machine; `None` once one does not read. */
  function Machines(blocks: seq<seq<string>>): (r: Option<seq<ClawMachine>>)
    ensures r.Some? <==> forall k :: 0 <= k < |blocks| ==> MachineOf(blocks[k]).Some?
    ensures r.Some? ==> |r.value| == |blocks|
    ensures r.Some? ==> forall k :: 0 <= k < |blocks| ==> MachineOf(blocks[k]) == Some(r.value[k])
  {
    EachLineParses(MachineOf, blocks);
    EachLine(MachineOf, blocks)
  }

  /** The captures of one block, line after line. */
  method ReadCaptures(block: seq<string>) returns (caps: seq<Capture>)
    ensures caps == BlockCaptures(block)
  {
    caps := [];
    for y := 0 to |block|
      invariant caps == BlockCaptures(block[..y])
    {
      assert block[..y + 1][..y] == block[..y];
      caps := caps + Captures(block[y], 0);
    }
    assert block[..|block|] == block;
  }

  /** `get_claw_machine_configs_from_file`. */
  method GetClawMachineConfigs(lines: seq<string>) returns (r: Option<seq<ClawMachine>>)
    ensures r == Machines(Blocks(lines))
  {
    var blocks := GetBlocks(lines);
    var machines: seq<ClawMachine> := [];
    for k := 0 to |blocks|
      invariant EachLine(MachineOf, blocks[..k]) == Some(machines)
    {
      var caps := ReadCaptures(blocks[k]);
      var machine := MachineFrom(caps);
      EachLineStep(MachineOf, blocks, k);
      if machine.None? {
        EachLineStaysNone(MachineOf, blocks, k + 1);
        return None;
      }
      machines := machines + [machine.value];
    }
    assert blocks[..|blocks|] == blocks;
    r := Some(machines);
  }

  /** `main` with the unit offset and the button limit as parameters: the
      total cost with the check as written, or `None` when the program
      aborts. */
  method Solve(lines: seq<string>, offset: nat, limit: nat) returns (r: Option<int>)
    requires offset < TwoTo64 && limit < TwoTo64
    ensures Machines(Blocks(lines)).None? ==> r.None?
    ensures Machines(Blocks(lines)).Some? ==> r == TotalCost(Machines(Blocks(lines)).value, offset, limit, AsWritten)
  {
    var machines := GetClawMachineConfigs(lines);
    if machines.None? {
      return None;
    }
    r := TotalMinTokens(machines.value, offset, limit);
  }

  // ---------------------------------------------------------------------
  // Reading back what was written
  // ---------------------------------------------------------------------

  /** A line of the puzzle input: a caption, then `X`, the sign, the x
      digits, `, Y`, the sign and the y digits. */
  function WrittenLine(caption: string, sign: char, dx: string, dy: string): string {
    caption + ['X', sign] + dx + [',', ' ', 'Y', sign] + dy
  }

  function OffsetLine(caption: string, sign: char, o: Offset): string
    requires o.x >= 0 && o.y >= 0
  {
    WrittenLine(caption, sign, ToDecimal(o.x), ToDecimal(o.y))
  }

  function MachineLines(m: ClawMachine): seq<string>
    requires m.a.x >= 0 && m.a.y >= 0 && m.b.x >= 0 && m.b.y >= 0 && m.prize.x >= 0 && m.prize.y >= 0
  {
    [OffsetLine("Button A: ", '+', m.a), OffsetLine("Button B: ", '+', m.b), OffsetLine("Prize: ", '=', m.prize)]
  }

  /** Positions without an `X` start no match. */
  lemma {:induction false} CapturesSkip(line: string, i: nat, j: nat)
    requires i <= j <= |line|
    requires forall k :: i <= k < j ==> line[k] != 'X'
    ensures Captures(line, i) == Captures(line, j)
    decreases j - i
  {
    if i < j {
      CapturesSkip(line, i + 1, j);
    }
  }

  lemma {:induction false} DigitRunIs(line: string, i: nat, n: nat)
    requires i + n <= |line|
    requires forall k :: i <= k < i + n ==> IsDigit(line[k])
    requires i + n < |line| ==> !IsDigit(line[i + n])
    ensures DigitRun(line, i) == n
    decreases n
  {
    if n > 0 {
      DigitRunIs(line, i + 1, n - 1);
    }
  }

  /** The shape of a written line, position by position. */
  lemma WrittenLineShape(caption: string, sign: char, dx: string, dy: string)
    requires forall k :: 0 <= k < |caption| ==> caption[k] != 'X'
    ensures var line := WrittenLine(caption, sign, dx, dy); var i := |caption|; var j := i + 2 + |dx|;
      && |line| == j + 4 + |dy|
      && (forall k :: 0 <= k < i ==> line[k] != 'X')
      && line[i] == 'X' && line[i + 1] == sign
      && (forall k :: 0 <= k < |dx| ==> line[i + 2 + k] == dx[k])
      && line[j] == ',' && line[j + 1] == ' ' && line[j + 2] == 'Y' && line[j + 3] == sign
      && (forall k :: 0 <= k < |dy| ==> line[j + 4 + k] == dy[k])
  {
  }

  /** A string laid out in `line` from `start` on is that slice of it. */
  lemma SliceIs(line: string, start: nat, s: string)
    requires start + |s| <= |line|
    requires forall k :: 0 <= k < |s| ==> line[start + k] == s[k]
    ensures line[start..start + |s|] == s
    ensures AllDigits(s) ==> forall k :: start <= k < start + |s| ==> IsDigit(line[k])
  {
    assert forall k :: start <= k < start + |s| ==> line[k] == s[k - start];
  }

  /** A match found at `i` whose two digit runs are `dx` and `dy` and which
      reaches the end of the line. */
  lemma MatchAtEnd(line: string, i: nat, sign: char, dx: string, dy: string)
    requires IsSign(sign) && AllDigits(dx) && AllDigits(dy)
    requires i + 2 + |dx| + 4 + |dy| == |line|
    requires line[i] == 'X' && line[i + 1] == sign
    requires forall k :: 0 <= k < |dx| ==> line[i + 2 + k] == dx[k]
    requires var j := i + 2 + |dx|; line[j] == ',' && line[j + 1] == ' ' && line[j + 2] == 'Y' && line[j + 3] == sign
    requires forall k :: 0 <= k < |dy| ==> line[i + 2 + |dx| + 4 + k] == dy[k]
    ensures MatchAt(line, i) == Some((Capture(dx, dy), |line|))
  {
    var j := i + 2 + |dx|;
    SliceIs(line, i + 2, dx);
    DigitRunIs(line, i + 2, |dx|);
    SliceIs(line, j + 4, dy);
    DigitRunIs(line, j + 4, |dy|);
  }

  /** A line whose only `X` starts a match running to its end has that one capture. */
  lemma CapturesOfShape(line: string, i: nat, sign: char, dx: string, dy: string)
    requires IsSign(sign) && AllDigits(dx) && AllDigits(dy)
    requires i + 2 + |dx| + 4 + |dy| == |line|
    requires forall k :: 0 <= k < i ==> line[k] != 'X'
    requires line[i] == 'X' && line[i + 1] == sign
    requires forall k :: 0 <= k < |dx| ==> line[i + 2 + k] == dx[k]
    requires var j := i + 2 + |dx|; line[j] == ',' && line[j + 1] == ' ' && line[j + 2] == 'Y' && line[j + 3] == sign
    requires forall k :: 0 <= k < |dy| ==> line[i + 2 + |dx| + 4 + k] == dy[k]
    ensures Captures(line, 0) == [Capture(dx, dy)]
  {
    CapturesSkip(line, 0, i);
    MatchAtEnd(line, i, sign, dx, dy);
  }

  /** A written line yields exactly the captures of its two digit runs. */
  lemma WrittenLineCaptures(caption: string, sign: char, dx: string, dy: string)
    requires IsSign(sign) && AllDigits(dx) && AllDigits(dy)
    requires forall k :: 0 <= k < |caption| ==> caption[k] != 'X'
    ensures Captures(WrittenLine(caption, sign, dx, dy), 0) == [Capture(dx, dy)]
  {
    WrittenLineShape(caption, sign, dx, dy);
    CapturesOfShape(WrittenLine(caption, sign, dx, dy), |caption|, sign, dx, dy);
  }

  lemma BlockCapturesThree(l0: string, l1: string, l2: string)
    ensures BlockCaptures([l0, l1, l2]) == Captures(l0, 0) + Captures(l1, 0) + Captures(l2, 0)
  {
    assert [l0, l1, l2][..2] == [l0, l1];
    assert [l0, l1][..1] == [l0];
    assert [l0][..0] == [];
    assert BlockCaptures([l0]) == Captures(l0, 0);
    assert BlockCaptures([l0, l1]) == BlockCaptures([l0]) + Captures(l1, 0);
    assert BlockCaptures([l0, l1, l2]) == BlockCaptures([l0, l1]) + Captures(l2, 0);
  }

  lemma CaptionsAvoidX()
    ensures forall k :: 0 <= k < |"Button A: "| ==> "Button A: "[k] != 'X'
    ensures forall k :: 0 <= k < |"Button B: "| ==> "Button B: "[k] != 'X'
    ensures forall k :: 0 <= k < |"Prize: "| ==> "Prize: "[k] != 'X'
  {
  }

  /** A machine written out as its three input lines reads back as itself. */
  lemma MachineRoundTrip(m: ClawMachine)
    requires 0 <= m.a.x <= I64.Max() && 0 <= m.a.y <= I64.Max()
    requires 0 <= m.b.x <= I64.Max() && 0 <= m.b.y <= I64.Max()
    requires 0 <= m.prize.x <= I64.Max() && 0 <= m.prize.y <= I64.Max()
    ensures MachineOf(MachineLines(m)) == Some(m)
  {
    CaptionsAvoidX();
    WrittenLineCaptures("Button A: ", '+', ToDecimal(m.a.x), ToDecimal(m.a.y));
    WrittenLineCaptures("Button B: ", '+', ToDecimal(m.b.x), ToDecimal(m.b.y));
    WrittenLineCaptures("Prize: ", '=', ToDecimal(m.prize.x), ToDecimal(m.prize.y));
    BlockCapturesThree(OffsetLine("Button A: ", '+', m.a), OffsetLine("Button B: ", '+', m.b), OffsetLine("Prize: ", '=', m.prize));
    ParseDecimal(m.a.x, I64);
    ParseDecimal(m.a.y, I64);
    ParseDecimal(m.b.x, I64);
    ParseDecimal(m.b.y, I64);
    ParseDecimal(m.prize.x, I64);
    ParseDecimal(m.prize.y, I64);
  }
}
