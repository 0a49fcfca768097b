/** Corrupted multiplication memory (src/days/day03.rs). The regular
    expressions of the source pick the instructions out of the memory; the
    model starts from the texts of those matches, in order, and from the
    instructions they stand for. */
module MulInstructions {
  import opened Wrappers
  import opened Text

  /** The instructions the matches spell: `mul(a,b)`, `do()` and `don't()`. */
  datatype Instruction = Mul(x: nat, y: nat) | Do | Dont

  /** The text a match of an instruction has (numbers without leading zeros). */
  function InstructionText(t: Instruction): string {
    match t
    case Mul(x, y) => "mul(" + NatToString(x) + "," + NatToString(y) + ")"
    case Do => "do()"
    case Dont => "don't()"
  }

  /** `mult`: the product of the first two numbers of a match. A match
      with fewer than two numbers would index out of range, a panic. */
  function Mult(op: string): (r: Option<nat>)
    ensures r.Some? <==> |DigitRuns(op)| >= 2
  {
    var runs := DigitRuns(op);
    if |runs| < 2 then None else Some(runs[0] * runs[1])
  }

  /** `mult` on the text of any `mul(X,Y)` match, whatever digits X and Y
      hold (leading zeros included), multiplies the two numbers. */
  lemma MultOfMatch(a: string, b: string)
    requires a != [] && AllDigits(a) && b != [] && AllDigits(b)
    ensures Mult("mul(" + a + "," + b + ")") == Some(DigitsValue(a) * DigitsValue(b))
  {
    var tail := b + ")";
    var rest := "," + tail;
    assert "mul(" + a + "," + b + ")" == "mul(" + (a + rest);
    assert forall k :: 0 <= k < 4 ==> !IsDigit("mul("[k]);
    SkipNonDigits("mul(", a + rest);
    TakeRun(a, rest);
    SkipNonDigits(",", tail);
    TakeRun(b, ")");
    SkipNonDigits(")", []);
    assert ")" + [] == ")";
  }

  lemma MultOfMul(x: nat, y: nat)
    ensures Mult(InstructionText(Mul(x, y))) == Some(x * y)
  {
    DigitsValueOfNatToString(x);
    DigitsValueOfNatToString(y);
    MultOfMatch(NatToString(x), NatToString(y));
  }

  /** The operation name: the text before the first '('. */
  function Name(op: string): string {
    Split(op, '(')[0]
  }

  lemma NameOfPrefix(op: string, name: string)
    requires |op| > |name| && op[..|name|] == name && op[|name|] == '(' && '(' !in name
    ensures Name(op) == name
  {
    IndexOfFirst(op, '(', |name|);
  }

  lemma NameOfInstruction(t: Instruction)
    ensures Name(InstructionText(t)) == (match t case Mul(_, _) => "mul" case Do => "do" case Dont => "don't")
  {
    var op := InstructionText(t);
    match t
    case Mul(x, y) =>
      assert op == "mul(" + (NatToString(x) + "," + NatToString(y) + ")");
      assert op[..3] == "mul" && op[3] == '(';
      NameOfPrefix(op, "mul");
    case Do =>
      assert op[..2] == "do" && op[2] == '(';
      NameOfPrefix(op, "do");
    case Dont =>
      assert op[..5] == "don't" && op[5] == '(';
      NameOfPrefix(op, "don't");
  }

  /** The accumulator of `solve_part_2`. */
  datatype Accumulator = Accumulator(enabled: bool, sum: nat)

  const Start := Accumulator(true, 0)

  /** One pass of the loop body: `mul` adds its product only while
      enabled (and `mult` is only called then), `don't` and `do` set the
      flag, and any other name panics. */
  function Step(acc: Accumulator, op: string): (r: Option<Accumulator>)
    ensures Name(op) == "don't" ==> r == Some(Accumulator(false, acc.sum))
    ensures Name(op) == "do" ==> r == Some(Accumulator(true, acc.sum))
    ensures Name(op) == "mul" && !acc.enabled ==> r == Some(acc)
    ensures r.Some? && r.value.sum != acc.sum ==> Name(op) == "mul" && acc.enabled
    ensures Name(op) != "mul" && Name(op) != "do" && Name(op) != "don't" ==> r.None?
  {
    var name := Name(op);
    if name == "mul" then
      if acc.enabled then
        match Mult(op)
        case None => None
        case Some(p) => Some(Accumulator(acc.enabled, acc.sum + p))
      else Some(acc)
    else if name == "don't" then Some(Accumulator(false, acc.sum))
    else if name == "do" then Some(Accumulator(true, acc.sum))
    else None
  }

  /** The accumulator after the loop has consumed `ops`, or `None` once a
      step has panicked. */
  function Run(ops: seq<string>): Option<Accumulator> {
    if ops == [] then Some(Start)
    else
      match Run(ops[..|ops| - 1])
      case None => None
      case Some(acc) => Step(acc, ops[|ops| - 1])
  }

  /** `solve_part_2` over the texts of the matches, in order. */
  method SolvePart2(ops: seq<string>) returns (r: Option<nat>)
    ensures r.None? <==> Run(ops).None?
    ensures r.Some? ==> r.value == Run(ops).value.sum
  {
    var acc := Start;
    for i := 0 to |ops|
      invariant Run(ops[..i]) == Some(acc)
    {
      assert ops[..i + 1][..i] == ops[..i];
      var name := Name(ops[i]);
      if name == "mul" {
        if acc.enabled {
          var product := Mult(ops[i]);
          if product.None? {
            RunFailsAfter(ops, i + 1);
            return None;
          }
          acc := acc.(sum := acc.sum + product.value);
        }
      } else if name == "don't" {
        acc := acc.(enabled := false);
      } else if name == "do" {
        acc := acc.(enabled := true);
      } else {
        RunFailsAfter(ops, i + 1);
        return None;
      }
    }
    assert ops[..|ops|] == ops;
    return Some(acc.sum);
  }

  /** Once a step has panicked, the whole run has. */
  lemma {:induction false} RunFailsAfter(ops: seq<string>, n: nat)
    requires n <= |ops| && Run(ops[..n]).None?
    ensures Run(ops).None?
    decreases |ops| - n
  {
    if n < |ops| {
      assert ops[..n + 1][..n] == ops[..n];
      RunFailsAfter(ops, n + 1);
    } else {
      assert ops[..n] == ops;
    }
  }

  /** `solve_part_1`: every `mul` match multiplied and summed. */
  function Part1Sum(ops: seq<string>): Option<nat> {
    if ops == [] then Some(0)
    else
      match (Part1Sum(ops[..|ops| - 1]), Mult(ops[|ops| - 1]))
      case (Some(s), Some(p)) => Some(s + p)
      case _ => None
  }

  /** One step over an instruction itself. */
  function Execute(acc: Accumulator, t: Instruction): Accumulator {
    match t
    case Mul(x, y) => if acc.enabled then Accumulator(true, acc.sum + x * y) else acc
    case Do => Accumulator(true, acc.sum)
    case Dont => Accumulator(false, acc.sum)
  }

  /** The step on the text of an instruction is the step on the instruction. */
  lemma StepOfText(acc: Accumulator, t: Instruction)
    ensures Step(acc, InstructionText(t)) == Some(Execute(acc, t))
  {
    NameOfInstruction(t);
    if t.Mul? {
      MultOfMul(t.x, t.y);
    }
  }

  /** The accumulator over the instructions themselves. */
  function RunInstructions(ts: seq<Instruction>): Accumulator {
    if ts == [] then Start else Execute(RunInstructions(ts[..|ts| - 1]), ts[|ts| - 1])
  }

  function Texts(ts: seq<Instruction>): (ops: seq<string>)
    ensures |ops| == |ts|
  {
    if ts == [] then [] else Texts(ts[..|ts| - 1]) + [InstructionText(ts[|ts| - 1])]
  }

  /** Running the loop on the texts of instructions never panics and
      computes the accumulator of the instructions. */
  lemma {:induction false} RunOfTexts(ts: seq<Instruction>)
    ensures Run(Texts(ts)) == Some(RunInstructions(ts))
  {
    if ts != [] {
      var init := ts[..|ts| - 1];
      var last := ts[|ts| - 1];
      RunOfTexts(init);
      assert Texts(ts)[..|ts| - 1] == Texts(init);
      StepOfText(RunInstructions(init), last);
    }
  }

  /** Part 1 over instructions: the products of every `mul`. */
  function MulSum(ts: seq<Instruction>): nat {
    if ts == [] then 0
    else
      MulSum(ts[..|ts| - 1]) + (match ts[|ts| - 1] case Mul(x, y) => x * y case _ => 0)
  }

  /** Part 1 over the texts of `mul` instructions is their `MulSum`. */
  lemma {:induction false} Part1OfTexts(ts: seq<Instruction>)
    requires forall k :: 0 <= k < |ts| ==> ts[k].Mul?
    ensures Part1Sum(Texts(ts)) == Some(MulSum(ts))
  {
    if ts != [] {
      var init := ts[..|ts| - 1];
      Part1OfTexts(init);
      assert Texts(ts)[..|ts| - 1] == Texts(init);
      MultOfMul(ts[|ts| - 1].x, ts[|ts| - 1].y);
    }
  }

  /** Switching multiplications off can only lose products: part 2 never
      exceeds part 1. */
  lemma {:induction false} Part2AtMostPart1(ts: seq<Instruction>)
    ensures RunInstructions(ts).sum <= MulSum(ts)
  {
    if ts != [] {
      Part2AtMostPart1(ts[..|ts| - 1]);
    }
  }

  /** Without a `don't()` every multiplication counts, so the two parts agree. */
  lemma {:induction false} NoDontAgrees(ts: seq<Instruction>)
    requires forall k :: 0 <= k < |ts| ==> ts[k] != Dont
    ensures RunInstructions(ts) == Accumulator(true, MulSum(ts))
  {
    if ts != [] {
      NoDontAgrees(ts[..|ts| - 1]);
    }
  }

  /** Whether multiplications are enabled depends only on the last switch. */
  lemma {:induction false} EnabledByLastSwitch(ts: seq<Instruction>, k: nat)
    requires k < |ts| && (ts[k] == Do || ts[k] == Dont)
    requires forall j :: k < j < |ts| ==> ts[j].Mul?
    ensures RunInstructions(ts).enabled <==> ts[k] == Do
    decreases |ts|
  {
    if k < |ts| - 1 {
      EnabledByLastSwitch(ts[..|ts| - 1], k);
    }
  }

  /** The first example: the four well-formed `mul` instructions give 161. */
  lemma ExamplePart1()
    ensures MulSum([Mul(2, 4), Mul(5, 5), Mul(11, 8), Mul(8, 5)]) == 161
  {
    var ts := [Mul(2, 4), Mul(5, 5), Mul(11, 8), Mul(8, 5)];
    assert ts[..3][..2] == ts[..2] && ts[..2][..1] == ts[..1] && ts[..1][..0] == [];
    assert MulSum(ts[..1]) == 8;
    assert MulSum(ts[..2]) == 33;
    assert MulSum(ts[..3]) == 121;
  }

  /** The second example: `don't()` switches off 5·5 and 11·8, `do()`
      switches 8·5 back on, 48 in all. */
  lemma ExamplePart2()
    ensures RunInstructions([Mul(2, 4), Dont, Mul(5, 5), Mul(11, 8), Do, Mul(8, 5)]).sum == 48
  {
    var ts := [Mul(2, 4), Dont, Mul(5, 5), Mul(11, 8), Do, Mul(8, 5)];
    assert ts[..5][..4] == ts[..4] && ts[..4][..3] == ts[..3];
    assert ts[..3][..2] == ts[..2] && ts[..2][..1] == ts[..1] && ts[..1][..0] == [];
    assert RunInstructions(ts[..1]) == Accumulator(true, 8);
    assert RunInstructions(ts[..2]) == Accumulator(false, 8);
    assert RunInstructions(ts[..3]) == Accumulator(false, 8);
    assert RunInstructions(ts[..4]) == Accumulator(false, 8);
    assert RunInstructions(ts[..5]) == Accumulator(true, 8);
  }
}
