/** Day 17: a machine with three `i64` registers `a`, `b`, `c`, a program
    counter and an output buffer, running a program of 3-bit opcodes with
    one operand each; and the backward search for an initial `a` that makes
    the program print itself, three bits at a time. */
module Day17 {
  import opened Text
  import opened Ints

  datatype Instruction = ADV | BXL | BST | JNZ | BXC | OUT | BDV | CDV

  /** The discriminant `instruction as i64`: the position in the declaration. */
  function Opcode(ins: Instruction): (v: nat)
    ensures v < 8
    ensures Decode(v) == Some(ins)
  {
    match ins
    case ADV => 0
    case BXL => 1
    case BST => 2
    case JNZ => 3
    case BXC => 4
    case OUT => 5
    case BDV => 6
    case CDV => 7
  }

  /** `Instruction::try_from`: the opcodes 0 to 7 and nothing else decode. */
  function Decode(v: int): (r: Option<Instruction>)
    ensures r.Some? <==> 0 <= v < 8
  {
    if v == 0 then Some(ADV)
    else if v == 1 then Some(BXL)
    else if v == 2 then Some(BST)
    else if v == 3 then Some(JNZ)
    else if v == 4 then Some(BXC)
    else if v == 5 then Some(OUT)
    else if v == 6 then Some(BDV)
    else if v == 7 then Some(CDV)
    else None
  }

  /** Decoding then taking the discriminant gives the value back. */
  lemma DecodeOpcode(v: int)
    ensures Decode(v).Some? ==> Opcode(Decode(v).value) == v
  {
  }

  /** Everything an instruction can change: the registers, the program
      counter and the output. */
  datatype Machine = Machine(a: int, b: int, c: int, pc: nat, out: seq<int>)

  /** The registers are `i64` values and the program counter a `usize`. */
  predicate Fits(m: Machine) {
    IsI64(m.a) && IsI64(m.b) && IsI64(m.c) && m.pc < TwoTo64
  }

  /** A program of `i64` values, whose length leaves room for `pc + 2`. */
  predicate ProgramFits(program: seq<int>) {
    |program| < TwoTo63 && forall k :: 0 <= k < |program| ==> IsI64(program[k])
  }

  predicate NonNegative(m: Machine) {
    m.a >= 0 && m.b >= 0 && m.c >= 0
  }

  /** `get_combo_operand`: 0 to 3 stand for themselves, 4, 5 and 6 read
      `a`, `b` and `c`, and anything else is an error. */
  function Combo(m: Machine, operand: int): (r: Option<int>)
    ensures r.Some? <==> 0 <= operand <= 6
    ensures r.Some? && Fits(m) ==> IsI64(r.value)
    ensures r.Some? && NonNegative(m) && operand >= 0 ==> r.value >= 0
  {
    if 0 <= operand <= 3 then Some(operand)
    else if operand == 4 then Some(m.a)
    else if operand == 5 then Some(m.b)
    else if operand == 6 then Some(m.c)
    else None
  }

  /** `a / 2.pow(combo as u32)`: an error when the combo operand is, or
      when the power overflows an `i64` (exponent 63 or more). */
  function DivideA(m: Machine, operand: int): Option<int> {
    match Combo(m, operand)
    case None => None
    case Some(v) =>
      var e := AsU32(v);
      if e >= 63 then None else Some(TDiv(m.a, Pow2(e)))
  }

  /** The quotient is `a` divided by a power of two below `2^63`, and never
      further from zero than `a`. */
  lemma DivideAShrinks(m: Machine, operand: int)
    requires DivideA(m, operand).Some?
    ensures exists e :: 0 <= e < 63 && DivideA(m, operand).value == TDiv(m.a, Pow2(e))
    ensures Abs(DivideA(m, operand).value) <= Abs(m.a)
    ensures m.a >= 0 ==> 0 <= DivideA(m, operand).value <= m.a
  {
    TDivShrinks(m.a, Pow2(AsU32(Combo(m, operand).value)));
  }

  /** The effect of one instruction with its operand; `None` where the
      source's `unwrap` on the combo operand, or the power, would panic. */
  function Execute(m: Machine, ins: Instruction, operand: int): Option<Machine>
    requires Fits(m) && IsI64(operand)
  {
    var next := m.pc + 2;
    match ins
    case ADV => (match DivideA(m, operand) case Some(q) => Some(m.(a := q, pc := next)) case None => None)
    case BXL => Some(m.(b := Xor(m.b, operand), pc := next))
    case BST => (match Combo(m, operand) case Some(v) => Some(m.(b := TMod(v, 8), pc := next)) case None => None)
    case JNZ => Some(if m.a != 0 then m.(pc := AsU64(operand)) else m.(pc := next))
    case BXC => Some(m.(b := Xor(m.b, m.c), pc := next))
    case OUT => (match Combo(m, operand) case Some(v) => Some(m.(out := m.out + [TMod(v, 8)], pc := next)) case None => None)
    case BDV => (match DivideA(m, operand) case Some(q) => Some(m.(b := q, pc := next)) case None => None)
    case CDV => (match DivideA(m, operand) case Some(q) => Some(m.(c := q, pc := next)) case None => None)
  }

  /** Every instruction but JNZ moves the program counter on by 2, and each
      changes only its own target: `a` for ADV; `b` for BXL, BST, BXC and
      BDV; `c` for CDV; one more output for OUT. JNZ jumps to its operand
      (as a `usize`) when `a` is not 0 and changes nothing else. */
  lemma ExecuteTargets(m: Machine, ins: Instruction, operand: int)
    requires Fits(m) && IsI64(operand) && Execute(m, ins, operand).Some?
    ensures var m' := Execute(m, ins, operand).value;
      && (ins != JNZ ==> m'.pc == m.pc + 2)
      && (ins == JNZ ==> m'.pc == if m.a != 0 then AsU64(operand) else m.pc + 2)
      && (ins != ADV ==> m'.a == m.a)
      && (ins != BXL && ins != BST && ins != BXC && ins != BDV ==> m'.b == m.b)
      && (ins != CDV ==> m'.c == m.c)
      && (ins != OUT ==> m'.out == m.out)
      && (ins == OUT ==> |m'.out| == |m.out| + 1 && m'.out[..|m.out|] == m.out)
  {
    if ins == OUT {
      var m' := Execute(m, ins, operand).value;
      assert m'.out[..|m.out|] == m.out;
    }
  }

  /** OUT appends the combo operand modulo 8 (Rust's `%`), a value in [0, 7]
      when the registers are non-negative. */
  lemma OutputDigit(m: Machine, operand: int)
    requires Fits(m) && IsI64(operand) && Execute(m, OUT, operand).Some?
    ensures var m' := Execute(m, OUT, operand).value;
      -8 < m'.out[|m.out|] < 8 && (NonNegative(m) && operand >= 0 ==> 0 <= m'.out[|m.out|] < 8)
  {
    TModRange(Combo(m, operand).value, 8);
  }

  /** The registers stay `i64`, and the program counter a `usize`, as long
      as `pc + 2` still fits. */
  lemma ExecuteFits(m: Machine, ins: Instruction, operand: int)
    requires Fits(m) && IsI64(operand) && m.pc + 2 < TwoTo64
    ensures Execute(m, ins, operand).Some? ==> Fits(Execute(m, ins, operand).value)
  {
    match ins
    case BST =>
      if Combo(m, operand).Some? {
        TModRange(Combo(m, operand).value, 8);
      }
    case ADV | BDV | CDV =>
      if DivideA(m, operand).Some? {
        DivideAShrinks(m, operand);
      }
    case _ =>
  }

  /** With non-negative operands, the registers stay non-negative. */
  lemma ExecuteNonNegative(m: Machine, ins: Instruction, operand: int)
    requires Fits(m) && IsI64(operand) && NonNegative(m) && operand >= 0
    ensures Execute(m, ins, operand).Some? ==> NonNegative(Execute(m, ins, operand).value)
  {
    match ins
    case BXL => XorNonNegative(m.b, operand);
    case BST =>
      if Combo(m, operand).Some? {
        TModRange(Combo(m, operand).value, 8);
      }
    case BXC => XorNonNegative(m.b, m.c);
    case ADV | BDV | CDV =>
      if DivideA(m, operand).Some? {
        DivideAShrinks(m, operand);
      }
    case _ =>
  }

  // ---------------------------------------------------------------------
  // Running a program
  // ---------------------------------------------------------------------

  /** One trip round the loop of `run`: decode the opcode at `pc` and
      execute it with the operand after it. */
  function Step(m: Machine, program: seq<int>): Option<Machine>
    requires Fits(m) && ProgramFits(program) && m.pc + 1 < |program|
  {
    match Decode(program[m.pc])
    case None => None
    case Some(ins) => Execute(m, ins, program[m.pc + 1])
  }

  lemma StepFits(m: Machine, program: seq<int>)
    requires Fits(m) && ProgramFits(program) && m.pc + 1 < |program|
    ensures Step(m, program).Some? ==> Fits(Step(m, program).value)
  {
    if Decode(program[m.pc]).Some? {
      ExecuteFits(m, Decode(program[m.pc]).value, program[m.pc + 1]);
    }
  }

  /** How a run ends: at a program counter past the last opcode, at a
      panic, or with the fuel (a bound of the model) used up. */
  datatype RunResult = Halted(m: Machine) | Crashed | OutOfFuel(m: Machine)

  /** `run` with at most `fuel` instructions: it stops once `pc` is not
      below `len - 1`; an empty program panics at `len - 1`. */
  function RunFor(m: Machine, program: seq<int>, fuel: nat): RunResult
    requires Fits(m) && ProgramFits(program)
    decreases fuel, 1
  {
    if |program| == 0 then Crashed
    else if m.pc >= |program| - 1 then Halted(m)
    else if fuel == 0 then OutOfFuel(m)
    else Continue(m, program, fuel)
  }

  /** The rest of a run after one trip round the loop: a panic crashes
      it, otherwise it goes on from the new machine with one unit of fuel
      less. */
  function Continue(m: Machine, program: seq<int>, fuel: nat): RunResult
    requires Fits(m) && ProgramFits(program) && m.pc + 1 < |program| && fuel > 0
    decreases fuel, 0
  {
    match Step(m, program)
    case None => Crashed
    case Some(m') => StepFits(m, program); RunFor(m', program, fuel - 1)
  }

  /** One trip round the loop, when `pc` is below `len - 1` and fuel is
      left: a panic crashes the run, otherwise it goes on from the new
      machine. */
  lemma RunForStep(m: Machine, program: seq<int>, fuel: nat)
    requires Fits(m) && ProgramFits(program) && 0 < |program| && m.pc < |program| - 1 && fuel > 0
    ensures Step(m, program).None? ==> RunFor(m, program, fuel) == Crashed
    ensures Step(m, program).Some? ==>
      Fits(Step(m, program).value) && RunFor(m, program, fuel) == RunFor(Step(m, program).value, program, fuel - 1)
  {
    StepFits(m, program);
  }

  /** A run halts exactly with `pc` at or past `len - 1`, and the machine
      it halts with fits its types. */
  lemma {:induction false} RunHalts(m: Machine, program: seq<int>, fuel: nat)
    requires Fits(m) && ProgramFits(program)
    ensures RunFor(m, program, fuel).Halted? ==>
      |program| > 0 && RunFor(m, program, fuel).m.pc >= |program| - 1 && Fits(RunFor(m, program, fuel).m)
    ensures |program| > 0 && m.pc >= |program| - 1 ==> RunFor(m, program, fuel) == Halted(m)
    decreases fuel
  {
    if |program| > 0 && m.pc < |program| - 1 && fuel > 0 {
      var next := Step(m, program);
      if next.Some? {
        StepFits(m, program);
        RunHalts(next.value, program, fuel - 1);
      }
    }
  }

  /** The output only grows during a run. */
  lemma {:induction false} RunOutputGrows(m: Machine, program: seq<int>, fuel: nat)
    requires Fits(m) && ProgramFits(program)
    ensures var r := RunFor(m, program, fuel);
      (r.Halted? || r.OutOfFuel?) ==> |m.out| <= |r.m.out| && r.m.out[..|m.out|] == m.out
    decreases fuel
  {
    if |program| > 0 && m.pc < |program| - 1 && fuel > 0 && Step(m, program).Some? {
      var m' := Step(m, program).value;
      ExecuteTargets(m, Decode(program[m.pc]).value, program[m.pc + 1]);
      StepFits(m, program);
      RunOutputGrows(m', program, fuel - 1);
      var r := RunFor(m', program, fuel - 1);
      if r.Halted? || r.OutOfFuel? {
        assert r.m.out[..|m.out|] == r.m.out[..|m'.out|][..|m.out|];
      }
    }
  }

  /** More fuel does not change a run that halts: the fuel bound only cuts
      off runs that do not. */
  lemma {:induction false} RunMoreFuel(m: Machine, program: seq<int>, fuel: nat, more: nat)
    requires Fits(m) && ProgramFits(program) && fuel <= more
    requires RunFor(m, program, fuel).Halted?
    ensures RunFor(m, program, more) == RunFor(m, program, fuel)
    decreases fuel
  {
    assert |program| > 0;
    if m.pc < |program| - 1 {
      assert fuel > 0;
      RunForStep(m, program, fuel);
      RunForStep(m, program, more);
      RunMoreFuel(Step(m, program).value, program, fuel - 1, more - 1);
    }
  }

  /** The program's values are all opcodes, that is, 3-bit numbers. */
  predicate Octal(program: seq<int>) {
    forall k :: 0 <= k < |program| ==> 0 <= program[k] < 8
  }

  /** A 3-bit program run from non-negative registers outputs only 3-bit numbers. */
  lemma {:induction false} RunOutputsOctal(m: Machine, program: seq<int>, fuel: nat)
    requires Fits(m) && ProgramFits(program) && Octal(program) && NonNegative(m) && Octal(m.out)
    ensures RunFor(m, program, fuel).Halted? ==> Octal(RunFor(m, program, fuel).m.out)
    decreases fuel
  {
    if |program| > 0 && m.pc < |program| - 1 && fuel > 0 && Step(m, program).Some? {
      var ins := Decode(program[m.pc]).value;
      var operand := program[m.pc + 1];
      var m' := Step(m, program).value;
      StepFits(m, program);
      ExecuteNonNegative(m, ins, operand);
      ExecuteTargets(m, ins, operand);
      if ins == OUT {
        OutputDigit(m, operand);
        assert forall k :: 0 <= k < |m.out| ==> m'.out[k] == m.out[k];
      }
      RunOutputsOctal(m', program, fuel - 1);
    }
  }

  /** `run_single_out(initial_a)`: a run from `a = initial_a`, `b = c = 0`,
      `pc = 0` and no output, giving its first output; `None` when the run
      panics or outputs nothing (`out[0]` panics). */
  function SingleOut(program: seq<int>, initialA: int, fuel: nat): Option<int>
    requires ProgramFits(program) && IsI64(initialA)
  {
    match RunFor(Machine(initialA, 0, 0, 0, []), program, fuel)
    case Halted(m) => if |m.out| > 0 then Some(m.out[0]) else None
    case _ => None
  }

  /** For a 3-bit program and a non-negative start, the first output is a 3-bit number. */
  lemma SingleOutOctal(program: seq<int>, initialA: int, fuel: nat)
    requires ProgramFits(program) && IsI64(initialA) && Octal(program) && initialA >= 0
    ensures SingleOut(program, initialA, fuel).Some? ==> 0 <= SingleOut(program, initialA, fuel).value < 8
  {
    RunOutputsOctal(Machine(initialA, 0, 0, 0, []), program, fuel);
  }

  // ---------------------------------------------------------------------
  // The quine search
  // ---------------------------------------------------------------------

  const TwoTo60: int := 0x1000_0000_0000_0000

  /** `(curr << 3) + i` on `i64`: the shift drops the bits it pushes out at
      the top, and the sum cannot overflow. Below 2^60 it is `8 * curr + i`. */
  function Candidate(curr: int, i: int): (r: int)
    requires 0 <= i < 8
    ensures IsI64(r)
    ensures 0 <= curr < TwoTo60 ==> r == 8 * curr + i
  {
    ShiftRoom(curr);
    WrapI64(curr * 8) + i
  }

  /** A multiple of 8 read as an `i64` leaves room for adding 7. */
  lemma ShiftRoom(curr: int)
    ensures WrapI64(curr * 8) <= TwoTo63 - 8
  {
    var v := curr * 8;
    var low := v % TwoTo64;
    var q := v / TwoTo64;
    assert v == TwoTo64 * q + low;
    var t := curr - 0x2000_0000_0000_0000 * q;
    assert low == 8 * t;
    if low < TwoTo63 {
      assert t < TwoTo60;
    }
  }

  /** The survivors of one round are the candidates `(curr << 3) + i` whose
      first output is the program value just processed. */
  function Gained(program: seq<int>, fuel: nat, done: set<int>, instruction: int): set<int>
    requires ProgramFits(program)
  {
    set curr, i | curr in done && 0 <= i < 8 && SingleOut(program, Candidate(curr, i), fuel) == Some(instruction) :: Candidate(curr, i)
  }

  /** No run of the round panics. */
  predicate NoFault(program: seq<int>, fuel: nat, done: set<int>)
    requires ProgramFits(program)
  {
    forall curr, i :: curr in done && 0 <= i < 8 ==> SingleOut(program, Candidate(curr, i), fuel).Some?
  }

  /** One round of `find_quine`: the new set of candidates, or `None` when a
      single run panics (the program aborts, in whatever order the set is
      visited). */
  function Survivors(program: seq<int>, fuel: nat, quines: set<int>, instruction: int): Option<set<int>>
    requires ProgramFits(program)
  {
    if NoFault(program, fuel, quines) then Some(Gained(program, fuel, quines, instruction)) else None
  }

  /** The candidates after processing the program values from the last one
      down to `program[j]`, starting from `{0}`. */
  function Quines(program: seq<int>, fuel: nat, j: nat): Option<set<int>>
    requires ProgramFits(program) && j <= |program|
    decreases |program| - j
  {
    if j == |program| then Some({0})
    else match Quines(program, fuel, j + 1)
      case None => None
      case Some(s) => Survivors(program, fuel, s, program[j])
  }

  /** Every survivor of round `j` comes from a survivor of round `j + 1`
      as `(curr << 3) + i` with `i` in 0..8, and its single run outputs
      `program[j]`. */
  lemma QuinesShape(program: seq<int>, fuel: nat, j: nat)
    requires ProgramFits(program) && j < |program| && Quines(program, fuel, j).Some?
    ensures Quines(program, fuel, j + 1).Some?
    ensures forall n :: n in Quines(program, fuel, j).value ==>
      SingleOut(program, n, fuel) == Some(program[j]) &&
      exists curr, i :: curr in Quines(program, fuel, j + 1).value && 0 <= i < 8 && n == Candidate(curr, i)
  {
    var s := Quines(program, fuel, j + 1).value;
    forall n | n in Quines(program, fuel, j).value
      ensures SingleOut(program, n, fuel) == Some(program[j])
      ensures exists curr, i :: curr in s && 0 <= i < 8 && n == Candidate(curr, i)
    {
      var curr, i :| curr in s && 0 <= i < 8 && SingleOut(program, Candidate(curr, i), fuel) == Some(program[j]) && n == Candidate(curr, i);
    }
  }

  /** Once a round panics, the whole search does. */
  lemma {:induction false} QuinesStayNone(program: seq<int>, fuel: nat, j: nat)
    requires ProgramFits(program) && j <= |program| && Quines(program, fuel, j).None?
    ensures Quines(program, fuel, 0).None?
    decreases j
  {
    if j > 0 {
      QuinesStayNone(program, fuel, j - 1);
    }
  }

  /** Some element of a non-empty set (the order a `HashSet` yields). */
  ghost function Element<T>(s: set<T>): (x: T)
    requires s != {}
    ensures x in s
  {
    var x :| x in s; x
  }

  /** Takes some element of a non-empty set. */
  method Pick<T>(s: set<T>) returns (x: T)
    requires s != {}
    ensures x in s
  {
    x :| x in s;
  }

  /** The least element of a finite non-empty set. */
  ghost function SetMin(s: set<int>): (r: int)
    requires s != {}
    ensures r in s && forall y :: y in s ==> r <= y
  {
    SetHasMin(s);
    var r :| r in s && forall y :: y in s ==> r <= y;
    r
  }

  lemma SetHasMin(s: set<int>)
    requires s != {}
    ensures exists r :: r in s && forall y :: y in s ==> r <= y
    decreases |s|
  {
    var x := Element(s);
    if s != {x} {
      SetHasMin(s - {x});
      var r :| r in s - {x} && forall y :: y in s - {x} ==> r <= y;
      var least := if x < r then x else r;
      forall y | y in s
        ensures least <= y
      {
        if y != x {
          assert y in s - {x};
        }
      }
    } else {
      forall y | y in s
        ensures x <= y
      {
        assert y == x;
      }
    }
  }

  /** `find_quine`: the least final candidate as a `usize`; `None` when a
      run panics or no candidate survives (`min().unwrap()` panics). */
  ghost function QuineOf(program: seq<int>, fuel: nat): (r: Option<nat>)
    requires ProgramFits(program)
    ensures r.Some? ==> Quines(program, fuel, 0).Some? && Quines(program, fuel, 0).value != {}
    ensures r.Some? ==> r.value < TwoTo64
  {
    match Quines(program, fuel, 0)
    case None => None
    case Some(s) => if s == {} then None else Some(AsU64(SetMin(s)))
  }

  /** The answer is the least final survivor, read as a `usize`, and its
      run outputs the first program value. */
  lemma QuineReproducesFirst(program: seq<int>, fuel: nat)
    requires ProgramFits(program) && |program| > 0 && QuineOf(program, fuel).Some?
    ensures var s := Quines(program, fuel, 0).value;
      exists q :: q in s && (forall y :: y in s ==> q <= y) && QuineOf(program, fuel) == Some(AsU64(q)) && SingleOut(program, q, fuel) == Some(program[0])
  {
    QuinesShape(program, fuel, 0);
    var q := SetMin(Quines(program, fuel, 0).value);
    assert SingleOut(program, q, fuel) == Some(program[0]);
  }

  /** `quines.iter().min()` on a non-empty set. */
  method MinOf(s: set<int>) returns (least: int)
    requires s != {}
    ensures least in s && forall y :: y in s ==> least <= y
  {
    least := Pick(s);
    var todo := s - {least};
    while todo != {}
      invariant todo <= s && least in s
      invariant forall y :: y in s && y !in todo ==> least <= y
      decreases todo
    {
      var y := Pick(todo);
      if y < least {
        least := y;
      }
      todo := todo - {y};
    }
  }

  lemma GainedAdd(program: seq<int>, fuel: nat, done: set<int>, curr: int, instruction: int, row: set<int>)
    requires ProgramFits(program)
    requires forall n :: n in row <==> exists i :: 0 <= i < 8 && SingleOut(program, Candidate(curr, i), fuel) == Some(instruction) && n == Candidate(curr, i)
    ensures Gained(program, fuel, done + {curr}, instruction) == Gained(program, fuel, done, instruction) + row
  {
    var left := Gained(program, fuel, done + {curr}, instruction);
    var right := Gained(program, fuel, done, instruction) + row;
    forall n | n in left ensures n in right {
      var c, i :| c in done + {curr} && 0 <= i < 8 && SingleOut(program, Candidate(c, i), fuel) == Some(instruction) && n == Candidate(c, i);
      if c != curr {
        assert n in Gained(program, fuel, done, instruction);
      }
    }
    forall n | n in right ensures n in left {
      if n in row {
        var i :| 0 <= i < 8 && SingleOut(program, Candidate(curr, i), fuel) == Some(instruction) && n == Candidate(curr, i);
      } else {
        var c, i :| c in done && 0 <= i < 8 && SingleOut(program, Candidate(c, i), fuel) == Some(instruction) && n == Candidate(c, i);
      }
    }
  }

  lemma NoFaultAdd(program: seq<int>, fuel: nat, done: set<int>, curr: int)
    requires ProgramFits(program) && NoFault(program, fuel, done)
    requires forall i :: 0 <= i < 8 ==> SingleOut(program, Candidate(curr, i), fuel).Some?
    ensures NoFault(program, fuel, done + {curr})
  {
  }

  // ---------------------------------------------------------------------
  // The machine as the source holds it
  // ---------------------------------------------------------------------

  class CPU {
    var a: int
    var b: int
    var c: int
    var out: seq<int>
    var pc: nat
    const program: seq<int>

    ghost predicate Valid()
      reads this
    {
      Fits(State()) && ProgramFits(program)
    }

    function State(): Machine
      reads this
    {
      Machine(a, b, c, pc, out)
    }

    /** A machine as `startup` leaves it: the registers and the program
        read from the input, `pc` at 0 and no output. */
    constructor (initialA: int, initialB: int, initialC: int, code: seq<int>)
      requires IsI64(initialA) && IsI64(initialB) && IsI64(initialC) && ProgramFits(code)
      ensures Valid() && program == code
      ensures State() == Machine(initialA, initialB, initialC, 0, [])
    {
      a, b, c := initialA, initialB, initialC;
      out, pc := [], 0;
      program := code;
    }

    method Adv(operand: int) returns (ok: bool)
      requires Valid() && IsI64(operand)
      modifies this
      ensures ok == Execute(old(State()), ADV, operand).Some?
      ensures ok ==> State() == Execute(old(State()), ADV, operand).value
      ensures !ok ==> State() == old(State())
    {
      var q := DivideA(State(), operand);
      if q.None? {
        return false;
      }
      a := q.value;
      pc := pc + 2;
      ok := true;
    }

    method Bxl(operand: int) returns (ok: bool)
      requires Valid() && IsI64(operand)
      modifies this
      ensures ok == Execute(old(State()), BXL, operand).Some?
      ensures ok ==> State() == Execute(old(State()), BXL, operand).value
      ensures !ok ==> State() == old(State())
    {
      b := Xor(b, operand);
      pc := pc + 2;
      ok := true;
    }

    method Bst(operand: int) returns (ok: bool)
      requires Valid() && IsI64(operand)
      modifies this
      ensures ok == Execute(old(State()), BST, operand).Some?
      ensures ok ==> State() == Execute(old(State()), BST, operand).value
      ensures !ok ==> State() == old(State())
    {
      var v := Combo(State(), operand);
      if v.None? {
        return false;
      }
      b := TMod(v.value, 8);
      pc := pc + 2;
      ok := true;
    }

    method Jnz(operand: int) returns (ok: bool)
      requires Valid() && IsI64(operand)
      modifies this
      ensures ok == Execute(old(State()), JNZ, operand).Some?
      ensures ok ==> State() == Execute(old(State()), JNZ, operand).value
      ensures !ok ==> State() == old(State())
    {
      if a != 0 {
        pc := AsU64(operand);
      } else {
        pc := pc + 2;
      }
      ok := true;
    }

    method Bxc(operand: int) returns (ok: bool)
      requires Valid() && IsI64(operand)
      modifies this
      ensures ok == Execute(old(State()), BXC, operand).Some?
      ensures ok ==> State() == Execute(old(State()), BXC, operand).value
      ensures !ok ==> State() == old(State())
    {
      b := Xor(b, c);
      pc := pc + 2;
      ok := true;
    }

    method Out(operand: int) returns (ok: bool)
      requires Valid() && IsI64(operand)
      modifies this
      ensures ok == Execute(old(State()), OUT, operand).Some?
      ensures ok ==> State() == Execute(old(State()), OUT, operand).value
      ensures !ok ==> State() == old(State())
    {
      var v := Combo(State(), operand);
      if v.None? {
        return false;
      }
      out := out + [TMod(v.value, 8)];
      pc := pc + 2;
      ok := true;
    }

    method Bdv(operand: int) returns (ok: bool)
      requires Valid() && IsI64(operand)
      modifies this
      ensures ok == Execute(old(State()), BDV, operand).Some?
      ensures ok ==> State() == Execute(old(State()), BDV, operand).value
      ensures !ok ==> State() == old(State())
    {
      var q := DivideA(State(), operand);
      if q.None? {
        return false;
      }
      b := q.value;
      pc := pc + 2;
      ok := true;
    }

    method Cdv(operand: int) returns (ok: bool)
      requires Valid() && IsI64(operand)
      modifies this
      ensures ok == Execute(old(State()), CDV, operand).Some?
      ensures ok ==> State() == Execute(old(State()), CDV, operand).value
      ensures !ok ==> State() == old(State())
    {
      var q := DivideA(State(), operand);
      if q.None? {
        return false;
      }
      c := q.value;
      pc := pc + 2;
      ok := true;
    }

    /** Decode the opcode at `pc` and dispatch it with the next value. */
    method Dispatch() returns (ok: bool)
      requires Valid() && pc + 1 < |program|
      modifies this
      ensures Valid()
      ensures ok == Step(old(State()), program).Some?
      ensures ok ==> State() == Step(old(State()), program).value
    {
      StepFits(State(), program);
      var ins := Decode(program[pc]);
      if ins.None? {
        return false;
      }
      var operand := program[pc + 1];
      match ins.value {
        case ADV => ok := Adv(operand);
        case BXL => ok := Bxl(operand);
        case BST => ok := Bst(operand);
        case JNZ => ok := Jnz(operand);
        case BXC => ok := Bxc(operand);
        case OUT => ok := Out(operand);
        case BDV => ok := Bdv(operand);
        case CDV => ok := Cdv(operand);
      }
    }

    /** `run`, for at most `fuel` instructions. */
    method Run(fuel: nat) returns (r: RunResult)
      requires Valid()
      modifies this
      ensures Valid()
      ensures r == RunFor(old(State()), program, fuel)
      ensures r.Halted? ==> State() == r.m
    {
      if |program| == 0 {
        return Crashed;
      }
      var left := fuel;
      while pc < |program| - 1
        invariant Valid()
        invariant RunFor(old(State()), program, fuel) == RunFor(State(), program, left)
        decreases left
      {
        if left == 0 {
          return OutOfFuel(State());
        }
        ghost var before := State();
        RunForStep(before, program, left);
        var ok := Dispatch();
        if !ok {
          return Crashed;
        }
        left := left - 1;
      }
      r := Halted(State());
    }

    /** `run_single_out`. */
    method RunSingleOut(initialA: int, fuel: nat) returns (r: Option<int>)
      requires Valid() && IsI64(initialA)
      modifies this
      ensures Valid()
      ensures r == SingleOut(program, initialA, fuel)
    {
      pc := 0;
      b := 0;
      c := 0;
      out := [];
      a := initialA;
      var result := Run(fuel);
      if !result.Halted? || |out| == 0 {
        return None;
      }
      r := Some(out[0]);
    }

    /** The eight candidates `(curr << 3) + i` of one survivor. */
    method Extend(curr: int, instruction: int, fuel: nat) returns (row: set<int>, ok: bool)
      requires Valid()
      modifies this
      ensures Valid()
      ensures ok <==> forall i :: 0 <= i < 8 ==> SingleOut(program, Candidate(curr, i), fuel).Some?
      ensures ok ==> forall n :: n in row <==>
        exists i :: 0 <= i < 8 && SingleOut(program, Candidate(curr, i), fuel) == Some(instruction) && n == Candidate(curr, i)
    {
      row := {};
      for i := 0 to 8
        invariant Valid()
        invariant forall k :: 0 <= k < i ==> SingleOut(program, Candidate(curr, k), fuel).Some?
        invariant forall n :: n in row <==>
          exists k :: 0 <= k < i && SingleOut(program, Candidate(curr, k), fuel) == Some(instruction) && n == Candidate(curr, k)
      {
        var candidate := Candidate(curr, i);
        var output := RunSingleOut(candidate, fuel);
        if output.None? {
          return row, false;
        }
        if output.value == instruction {
          row := row + {candidate};
        }
      }
      ok := true;
    }

    /** One round of `find_quine` over the current candidate set. */
    method Round(quines: set<int>, instruction: int, fuel: nat) returns (next: Option<set<int>>)
      requires Valid()
      modifies this
      ensures Valid()
      ensures next == Survivors(program, fuel, quines, instruction)
    {
      var found: set<int> := {};
      var todo := quines;
      while todo != {}
        invariant Valid() && todo <= quines
        invariant NoFault(program, fuel, quines - todo)
        invariant found == Gained(program, fuel, quines - todo, instruction)
        decreases todo
      {
        var curr := Pick(todo);
        var row, ok := Extend(curr, instruction, fuel);
        if !ok {
          var i :| 0 <= i < 8 && SingleOut(program, Candidate(curr, i), fuel).None?;
          assert !NoFault(program, fuel, quines);
          return None;
        }
        GainedAdd(program, fuel, quines - todo, curr, instruction, row);
        NoFaultAdd(program, fuel, quines - todo, curr);
        assert quines - (todo - {curr}) == (quines - todo) + {curr};
        found := found + row;
        todo := todo - {curr};
      }
      assert quines - todo == quines;
      next := Some(found);
    }

    /** `find_quine`: process the program values from the last to the
        first, keeping the candidates whose single run outputs the value. */
    method FindQuine(fuel: nat) returns (r: Option<nat>)
      requires Valid()
      modifies this
      ensures Valid()
      ensures r == QuineOf(program, fuel)
    {
      var quines: set<int> := {0};
      var j := |program|;
      while j > 0
        invariant Valid() && 0 <= j <= |program|
        invariant Quines(program, fuel, j) == Some(quines)
        decreases j
      {
        var next := Round(quines, program[j - 1], fuel);
        if next.None? {
          QuinesStayNone(program, fuel, j - 1);
          return None;
        }
        quines := next.value;
        j := j - 1;
      }
      if quines == {} {
        return None;
      }
      var least := MinOf(quines);
      r := Some(AsU64(least));
    }
  }
}
