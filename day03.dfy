/** Day 3: `mul(a,b)` instructions found in corrupted memory, switched off by
    `don't()` and back on by `do()`, multiplied out and added up. */
module Day3 {
  import opened Text

  /** One match of the instruction pattern, in the order the matches occur.
      `Mul` carries the text of its operand group (`[0-9]*,[0-9]*`). Without
      conditional parsing the pattern only matches `mul`, so no `Do` or
      `Dont` occurs. */
  datatype Instr = Mul(args: string) | Do | Dont

  /** Whether `mul` is switched on just before match `i`: on at the start,
      then as the latest `do()` / `don't()` before `i` left it. */
  predicate Enabled(ts: seq<Instr>, i: nat)
    requires i <= |ts|
  {
    if i == 0 then true
    else match ts[i - 1]
      case Do => true
      case Dont => false
      case Mul(_) => Enabled(ts, i - 1)
  }

  /** The operand texts of the multiplications that are kept, in order. */
  function KeptArgs(ts: seq<Instr>): seq<string> {
    if ts == [] then []
    else
      var n := |ts| - 1;
      KeptArgs(ts[..n]) + (if ts[n].Mul? && Enabled(ts, n) then [ts[n].args] else [])
  }

  /** `captured[1].split(",").map(|n| n.parse::<i32>().unwrap())`. */
  function Operands(args: string): Option<seq<int>> {
    ParseAll(Split(args, ","), I32)
  }

  /** The filter loop: the flag starts on, a `mul` seen while it is on is kept
      with its parsed operands, `do()` switches it on and `don't()` off.
      `None` when a kept `mul` has an operand that does not parse as `i32`
      (the program aborts). */
  method GetMultiplications(ts: seq<Instr>) returns (r: Option<seq<seq<int>>>)
    ensures r.Some? <==> forall k :: 0 <= k < |KeptArgs(ts)| ==> Operands(KeptArgs(ts)[k]).Some?
    ensures r.Some? ==> |r.value| == |KeptArgs(ts)|
    ensures r.Some? ==> forall k :: 0 <= k < |r.value| ==> Operands(KeptArgs(ts)[k]) == Some(r.value[k])
  {
    var multiplications: seq<seq<int>> := [];
    var areProcessingMul := true;
    for i := 0 to |ts|
      invariant areProcessingMul == Enabled(ts, i)
      invariant |multiplications| == |KeptArgs(ts[..i])|
      invariant forall k :: 0 <= k < |multiplications| ==> Operands(KeptArgs(ts[..i])[k]) == Some(multiplications[k])
      invariant forall k :: 0 <= k < |KeptArgs(ts[..i])| ==> Operands(KeptArgs(ts[..i])[k]).Some?
    {
      KeptArgsSnoc(ts, i);
      if ts[i].Mul? && areProcessingMul {
        var operands := Operands(ts[i].args);
        if operands.None? {
          KeptArgsPrefix(ts, i + 1);
          assert KeptArgs(ts)[|multiplications|] == ts[i].args;
          return None;
        }
        multiplications := multiplications + [operands.value];
      }
      if ts[i] == Do {
        areProcessingMul := true;
      }
      if ts[i] == Dont {
        areProcessingMul := false;
      }
    }
    assert ts[..|ts|] == ts;
    return Some(multiplications);
  }

  lemma EnabledPrefix(ts: seq<Instr>, m: nat, i: nat)
    requires i <= m <= |ts|
    ensures Enabled(ts[..m], i) == Enabled(ts, i)
    decreases i
  {
    if i > 0 {
      assert ts[..m][i - 1] == ts[i - 1];
      EnabledPrefix(ts, m, i - 1);
    }
  }

  lemma KeptArgsSnoc(ts: seq<Instr>, i: nat)
    requires i < |ts|
    ensures KeptArgs(ts[..i + 1]) == KeptArgs(ts[..i]) + (if ts[i].Mul? && Enabled(ts, i) then [ts[i].args] else [])
  {
    assert ts[..i + 1][..i] == ts[..i];
    EnabledPrefix(ts, i + 1, i);
  }

  /** The kept operands of a prefix of the matches start the kept operands of all of them. */
  lemma {:induction false} KeptArgsPrefix(ts: seq<Instr>, m: nat)
    requires m <= |ts|
    ensures |KeptArgs(ts[..m])| <= |KeptArgs(ts)|
    ensures forall k :: 0 <= k < |KeptArgs(ts[..m])| ==> KeptArgs(ts[..m])[k] == KeptArgs(ts)[k]
    decreases |ts| - m
  {
    if m < |ts| {
      KeptArgsPrefix(ts, m + 1);
      KeptArgsSnoc(ts, m);
    } else {
      assert ts[..m] == ts;
    }
  }

  predicate NoDontBetween(ts: seq<Instr>, j: int, i: nat)
    requires i <= |ts|
  {
    forall l :: j < l < i && l >= 0 ==> ts[l] != Dont
  }

  /** `mul` is on before match `i` exactly when no `don't()` precedes it, or
      some `do()` does with no `don't()` after it. */
  lemma {:induction false} EnabledIff(ts: seq<Instr>, i: nat)
    requires i <= |ts|
    ensures Enabled(ts, i) <==>
      NoDontBetween(ts, -1, i) || exists j :: 0 <= j < i && ts[j] == Do && NoDontBetween(ts, j, i)
  {
    if i > 0 {
      EnabledIff(ts, i - 1);
      match ts[i - 1]
      case Do =>
        assert ts[i - 1] == Do && NoDontBetween(ts, i - 1, i);
      case Dont =>
        assert !NoDontBetween(ts, -1, i);
        forall j | 0 <= j < i && ts[j] == Do ensures !NoDontBetween(ts, j, i) {
          assert j < i - 1;
        }
      case Mul(_) =>
        if exists j :: 0 <= j < i && ts[j] == Do && NoDontBetween(ts, j, i) {
          var j :| 0 <= j < i && ts[j] == Do && NoDontBetween(ts, j, i);
          assert j < i - 1;
          assert NoDontBetween(ts, j, i - 1);
        }
        if exists j :: 0 <= j < i - 1 && ts[j] == Do && NoDontBetween(ts, j, i - 1) {
          var j :| 0 <= j < i - 1 && ts[j] == Do && NoDontBetween(ts, j, i - 1);
          assert NoDontBetween(ts, j, i);
        }
    }
  }

  /** Without conditional parsing there are only `mul` matches, and all of them are kept. */
  lemma {:induction false} KeptAllWithoutConditionals(ts: seq<Instr>)
    requires forall j :: 0 <= j < |ts| ==> ts[j].Mul?
    ensures |KeptArgs(ts)| == |ts|
    ensures forall k :: 0 <= k < |ts| ==> KeptArgs(ts)[k] == ts[k].args
  {
    if ts != [] {
      var n := |ts| - 1;
      KeptAllWithoutConditionals(ts[..n]);
      EnabledIff(ts, n);
      assert Enabled(ts, n);
      forall k | 0 <= k < n ensures KeptArgs(ts)[k] == ts[k].args {
        assert ts[..n][k] == ts[k];
      }
    }
  }

  /** After a `don't()` with no later `do()`, nothing more is kept. */
  lemma {:induction false} DontSilences(ts: seq<Instr>, j: nat)
    requires j < |ts| && ts[j] == Dont
    requires forall l :: j < l < |ts| ==> ts[l] != Do
    ensures KeptArgs(ts) == KeptArgs(ts[..j])
    decreases |ts| - j
  {
    var n := |ts| - 1;
    if n > j {
      DisabledAfter(ts, j, n);
      assert ts[..n][j] == Dont;
      DontSilences(ts[..n], j);
      assert ts[..n][..j] == ts[..j];
    } else {
      assert ts[..n] == ts[..j];
    }
  }

  lemma {:induction false} DisabledAfter(ts: seq<Instr>, j: nat, i: nat)
    requires j < i <= |ts| && ts[j] == Dont
    requires forall l :: j < l < i ==> ts[l] != Do
    ensures !Enabled(ts, i)
    decreases i
  {
    if i - 1 > j {
      DisabledAfter(ts, j, i - 1);
    }
  }

  /** The product of a multiplication's operands; 1 for none. */
  function Product(operands: seq<int>): int {
    if operands == [] then 1 else Product(operands[..|operands| - 1]) * operands[|operands| - 1]
  }

  lemma {:induction false} ProductAppend(a: seq<int>, b: seq<int>)
    ensures Product(a + b) == Product(a) * Product(b)
    decreases |b|
  {
    if b != [] {
      var n := |b| - 1;
      assert (a + b)[..|a + b| - 1] == a + b[..n];
      ProductAppend(a, b[..n]);
    } else {
      assert a + b == a;
    }
  }

  /** `compute_multiplications`: one product per multiplication, in order. */
  method ComputeMultiplications(ms: seq<seq<int>>) returns (products: seq<int>)
    ensures |products| == |ms|
    ensures forall k :: 0 <= k < |ms| ==> products[k] == Product(ms[k])
  {
    products := [];
    for x := 0 to |ms|
      invariant |products| == x
      invariant forall k :: 0 <= k < x ==> products[k] == Product(ms[k])
    {
      var product := 1;
      for y := 0 to |ms[x]|
        invariant product == Product(ms[x][..y])
      {
        assert ms[x][..y + 1][..y] == ms[x][..y];
        product := product * ms[x][y];
      }
      assert ms[x][..|ms[x]|] == ms[x];
      products := products + [product];
    }
  }

  function Sum(s: seq<int>): int {
    if s == [] then 0 else Sum(s[..|s| - 1]) + s[|s| - 1]
  }

  lemma {:induction false} SumAppend(a: seq<int>, b: seq<int>)
    ensures Sum(a + b) == Sum(a) + Sum(b)
    decreases |b|
  {
    if b != [] {
      var n := |b| - 1;
      assert (a + b)[..|a + b| - 1] == a + b[..n];
      SumAppend(a, b[..n]);
    } else {
      assert a + b == a;
    }
  }

  /** `compute_sum`: the total of the products; 0 for none. */
  method ComputeSum(products: seq<int>) returns (total: int)
    ensures total == Sum(products)
  {
    total := 0;
    for x := 0 to |products|
      invariant total == Sum(products[..x])
    {
      assert products[..x + 1][..x] == products[..x];
      total := total + products[x];
    }
    assert products[..|products|] == products;
  }
}
