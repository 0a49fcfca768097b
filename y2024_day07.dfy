/** Calibration equations: deciding whether operators inserted between the
    values, evaluated left to right, can produce the target. The search
    runs backwards from the last value, undoing one operator at a time
    (src/years/y2024/day07.rs). */
module Calibration {
  import opened Wrappers
  import opened Text
  import opened Sums
  import opened Ints

  /** The three operations, named after the inverse that the backward
      search applies: `Subtract` undoes `+`, `Divide` undoes `*` and
      `Concatenate` undoes `||`. */
  datatype Op = Subtract | Divide | Concatenate

  const Part1Ops: seq<Op> := [Subtract, Divide]
  const Part2Ops: seq<Op> := [Subtract, Divide, Concatenate]

  /** The `multiplier` both `Concatenate` loops compute: 10 to the number
      of decimal digits of `b`, or 1 when `b` is not positive. */
  function Multiplier(b: int): (m: nat)
    ensures m >= 1 && m % 10 == (if b > 0 then 0 else 1)
    ensures b > 0 ==> b < m
  {
    if b <= 0 then 1 else 10 * Multiplier(b / 10)
  }

  /** The `while b > 0 { b /= 10; multiplier *= 10 }` loop. */
  method ComputeMultiplier(b: int) returns (multiplier: int)
    ensures multiplier == Multiplier(b)
  {
    multiplier := 1;
    var c := b;
    while c > 0
      invariant multiplier * Multiplier(c) == Multiplier(b)
      decreases c
    {
      MulShift(multiplier, Multiplier(c / 10), Multiplier(c));
      c := c / 10;
      multiplier := multiplier * 10;
    }
    assert Multiplier(c) == 1;
    MulOne(multiplier);
  }

  lemma MulShift(x: int, y: int, z: int)
    requires z == 10 * y
    ensures x * z == (x * 10) * y
  {
  }

  lemma MulOne(x: int)
    ensures x * 1 == x
  {
  }

  /** `should_continue`; `Divide` panics on a zero value. */
  function ShouldContinue(op: Op, target: int, last: int): (r: Option<bool>)
    ensures r.None? <==> op == Divide && last == 0
  {
    match op
    case Subtract => Some(target > last)
    case Divide => if last == 0 then None else Some(TruncRem(target, last) == 0)
    case Concatenate => Some(TruncRem(target, Multiplier(last)) == last)
  }

  /** `calc`: the target the shorter list must reach. */
  function Calc(op: Op, target: int, last: int): int
    requires op == Divide ==> last != 0
  {
    match op
    case Subtract => target - last
    case Divide => TruncDiv(target, last)
    case Concatenate => TruncDiv(target, Multiplier(last))
  }

  /** The forward operator each backward operation undoes. */
  function Apply(op: Op, acc: int, value: int): int {
    match op
    case Subtract => acc + value
    case Divide => acc * value
    case Concatenate => acc * Multiplier(value) + value
  }

  /** `is_solveable` on a non-empty list; `None` where a `Divide` would
      panic. The operations are tried in order and `any` stops at the
      first success. */
  function Solvable(target: int, values: seq<int>, ops: seq<Op>): Option<bool>
    requires |values| >= 1
    decreases |values|, |ops| + 1
  {
    if |values| == 1 then Some(values[0] == target)
    else TryOps(target, values[..|values| - 1], values[|values| - 1], ops, 0)
  }

  /** The `ops.iter().any(...)` of `is_solveable`, from `ops[i]` on. */
  function TryOps(target: int, rest: seq<int>, last: int, ops: seq<Op>, i: nat): Option<bool>
    requires |rest| >= 1 && i <= |ops|
    decreases |rest| + 1, |ops| - i
  {
    if i == |ops| then Some(false)
    else match ShouldContinue(ops[i], target, last)
      case None => None
      case Some(false) => TryOps(target, rest, last, ops, i + 1)
      case Some(true) =>
        match Solvable(Calc(ops[i], target, last), rest, ops)
        case None => None
        case Some(true) => Some(true)
        case Some(false) => TryOps(target, rest, last, ops, i + 1)
  }

  /** `is_solveable` on any list: an empty list panics on `len() - 1`. */
  function IsSolvable(target: int, values: seq<int>, ops: seq<Op>): (r: Option<bool>)
    ensures values == [] ==> r.None?
    ensures |values| == 1 ==> r == Some(values[0] == target)
  {
    if values == [] then None else Solvable(target, values, ops)
  }

  /** Every value the operators in `ops` produce from `values`, evaluated
      left to right: the forward reading of the puzzle. */
  function Results(values: seq<int>, ops: seq<Op>): set<int>
    requires |values| >= 1
  {
    if |values| == 1 then {values[0]}
    else
      var last := values[|values| - 1];
      set acc, op | acc in Results(values[..|values| - 1], ops) && op in ops :: Apply(op, acc, last)
  }

  predicate Positive(values: seq<int>) {
    forall k :: 0 <= k < |values| ==> values[k] >= 1
  }

  lemma {:induction false} ResultsPositive(values: seq<int>, ops: seq<Op>, t: int)
    requires |values| >= 1 && Positive(values) && t in Results(values, ops)
    ensures t >= 1
  {
    if |values| > 1 {
      var last := values[|values| - 1];
      var acc, op :| acc in Results(values[..|values| - 1], ops) && op in ops && t == Apply(op, acc, last);
      ResultsPositive(values[..|values| - 1], ops, acc);
      ApplyPositive(op, acc, last);
    }
  }

  lemma ApplyPositive(op: Op, acc: int, value: int)
    requires acc >= 1 && value >= 1
    ensures Apply(op, acc, value) >= 1
  {
    match op
    case Subtract =>
    case Divide => PositiveProduct(acc, value);
    case Concatenate => PositiveProduct(acc, Multiplier(value));
  }

  lemma PositiveProduct(x: int, y: int)
    requires x >= 1 && y >= 1
    ensures x * y >= 1
  {
  }

  lemma TruncDivExact(t: int, b: int, q: int, r: int)
    requires b > 0 && 0 <= r < b && t == q * b + r && q >= 0
    ensures TruncDiv(t, b) == q && TruncRem(t, b) == r
  {
    assert t >= 0 by { NonNegativeProduct(q, b); }
    EuclidUnique(t, b, q, r);
  }

  lemma NonNegativeProduct(x: int, y: int)
    requires x >= 0 && y >= 0
    ensures x * y >= 0
  {
  }

  /** Quotient and remainder of a division by a positive number are unique. */
  lemma EuclidUnique(t: int, b: int, q: int, r: int)
    requires b > 0 && 0 <= r < b && t == q * b + r
    ensures t / b == q && t % b == r
  {
    var d := q - t / b;
    assert d * b == t % b - r by {
      assert t == b * (t / b) + t % b;
    }
  }

  /** Undoing the operation: for positive numbers, the backward step of
      `op` continues and lands on `acc` exactly when `op`'s forward
      operator takes `acc` to `target`. */
  lemma Inverse(op: Op, target: int, last: int, acc: int)
    requires last >= 1 && acc >= 1
    ensures Apply(op, acc, last) == target
      <==> ShouldContinue(op, target, last) == Some(true) && Calc(op, target, last) == acc
  {
    match op
    case Subtract =>
    case Divide => InverseScaled(target, last, acc, 0);
    case Concatenate => InverseScaled(target, Multiplier(last), acc, last);
  }

  /** `acc * m + r` is `target` exactly when dividing `target` by `m`
      leaves `r` and gives `acc`. */
  lemma InverseScaled(target: int, m: int, acc: int, r: int)
    requires 0 <= r < m && acc >= 1
    ensures acc * m + r == target
      <==> TruncRem(target, m) == r && TruncDiv(target, m) == acc
  {
    if acc * m + r == target {
      TruncDivExact(target, m, acc, r);
    } else if TruncRem(target, m) == r {
      assert target == m * TruncDiv(target, m) + r;
      assert m * TruncDiv(target, m) == TruncDiv(target, m) * m;
    }
  }

  /** Concatenating `b` onto `x` and undoing it gives `x` back. */
  lemma ConcatenateRoundTrip(x: int, b: int)
    requires x >= 0 && b > 0
    ensures ShouldContinue(Concatenate, Apply(Concatenate, x, b), b) == Some(true)
    ensures Calc(Concatenate, Apply(Concatenate, x, b), b) == x
  {
    TruncDivExact(Apply(Concatenate, x, b), Multiplier(b), x, b);
  }

  /** Some operation from `ops[i]` on undoes into a result of `rest`. */
  ghost predicate SomeOpFits(target: int, rest: seq<int>, last: int, ops: seq<Op>, i: nat)
    requires |rest| >= 1 && i <= |ops|
  {
    exists j :: i <= j < |ops| && ShouldContinue(ops[j], target, last) == Some(true)
      && Calc(ops[j], target, last) in Results(rest, ops)
  }

  /** The backward search decides membership in the forward results:
      on positive values, `is_solveable` holds exactly when some choice of
      operators evaluates to the target. */
  lemma {:induction false} SolvableIffReachable(target: int, values: seq<int>, ops: seq<Op>)
    requires |values| >= 1 && Positive(values)
    ensures Solvable(target, values, ops) == Some(target in Results(values, ops))
    decreases |values|, |ops| + 1
  {
    if |values| > 1 {
      var rest, last := values[..|values| - 1], values[|values| - 1];
      assert Positive(rest);
      TryOpsIffFits(target, rest, last, ops, 0);
      if target in Results(values, ops) {
        var acc, op :| acc in Results(rest, ops) && op in ops && target == Apply(op, acc, last);
        ResultsPositive(rest, ops, acc);
        Inverse(op, target, last, acc);
        var j :| 0 <= j < |ops| && ops[j] == op;
        assert ShouldContinue(ops[j], target, last) == Some(true);
      }
      if SomeOpFits(target, rest, last, ops, 0) {
        var j :| 0 <= j < |ops| && ShouldContinue(ops[j], target, last) == Some(true)
          && Calc(ops[j], target, last) in Results(rest, ops);
        var acc := Calc(ops[j], target, last);
        ResultsPositive(rest, ops, acc);
        Inverse(ops[j], target, last, acc);
        assert target == Apply(ops[j], acc, last);
      }
    }
  }

  lemma {:induction false} TryOpsIffFits(target: int, rest: seq<int>, last: int, ops: seq<Op>, i: nat)
    requires |rest| >= 1 && i <= |ops| && Positive(rest) && last >= 1
    ensures TryOps(target, rest, last, ops, i) == Some(SomeOpFits(target, rest, last, ops, i))
    decreases |rest| + 1, |ops| - i
  {
    if i < |ops| {
      TryOpsIffFits(target, rest, last, ops, i + 1);
      if ShouldContinue(ops[i], target, last) == Some(true) {
        SolvableIffReachable(Calc(ops[i], target, last), rest, ops);
      }
    }
  }

  /** Adding operations can only add results. */
  lemma {:induction false} ResultsGrow(values: seq<int>, ops: seq<Op>, more: seq<Op>)
    requires |values| >= 1 && forall op :: op in ops ==> op in more
    ensures Results(values, ops) <= Results(values, more)
  {
    if |values| > 1 {
      ResultsGrow(values[..|values| - 1], ops, more);
    }
  }

  /** One line: the target and its values. */
  datatype Equation = Equation(target: int, values: seq<int>)

  /** One line of `parse_input`; `None` where an `unwrap` panics. */
  function ParseEquation(line: string): Option<Equation>
  {
    match SplitOnceStr(line, ": ")
    case None => None
    case Some((sum, values)) =>
      match (ParseInt(sum), ParseAllInts(SplitWhitespace(values)))
      case (Some(t), Some(vs)) => Some(Equation(t, vs))
      case _ => None
  }

  /** A line parses when it has a ": ", the part before it is an integer,
      and the words after it are integers, one value per word. */
  lemma ParseEquationMeaning(line: string)
    ensures ParseEquation(line).Some? <==> (SplitOnceStr(line, ": ").Some?
      && ParseInt(SplitOnceStr(line, ": ").value.0).Some?
      && ParseAllInts(SplitWhitespace(SplitOnceStr(line, ": ").value.1)).Some?)
    ensures ParseEquation(line).Some? ==> (
      ParseEquation(line).value.target == ParseInt(SplitOnceStr(line, ": ").value.0).value
      && |ParseEquation(line).value.values| == |SplitWhitespace(SplitOnceStr(line, ": ").value.1)|)
  {
  }

  /** `parse_input`: one equation per line. */
  function ParseInput(lines: seq<string>): (r: Option<seq<Equation>>)
    ensures r.Some? <==> forall k :: 0 <= k < |lines| ==> ParseEquation(lines[k]).Some?
    ensures r.Some? ==> (|r.value| == |lines|
      && forall k :: 0 <= k < |lines| ==> ParseEquation(lines[k]) == Some(r.value[k]))
  {
    var opts := seq(|lines|, k requires 0 <= k < |lines| => ParseEquation(lines[k]));
    assert forall k :: 0 <= k < |lines| ==> opts[k] == ParseEquation(lines[k]);
    AllSome(opts)
  }

  /** The `filter(is_solveable).fold(+)` of both parts: the sum of the
      targets of the solvable equations. */
  function SolvableSum(eqs: seq<Equation>, ops: seq<Op>): Option<int> {
    if eqs == [] then Some(0)
    else
      var e := eqs[|eqs| - 1];
      match (SolvableSum(eqs[..|eqs| - 1], ops), IsSolvable(e.target, e.values, ops))
      case (Some(s), Some(b)) => Some(if b then s + e.target else s)
      case (None, _) => None
      case (_, None) => None
  }

  predicate AllPositive(eqs: seq<Equation>) {
    forall k :: 0 <= k < |eqs| ==> eqs[k].values != [] && Positive(eqs[k].values)
  }

  /** On positive values nothing panics, and part 2's sum is at least
      part 1's: `Concatenate` only adds reachable targets, each positive. */
  lemma {:induction false} Part1AtMostPart2(eqs: seq<Equation>)
    requires AllPositive(eqs)
    ensures SolvableSum(eqs, Part1Ops).Some? && SolvableSum(eqs, Part2Ops).Some?
    ensures SolvableSum(eqs, Part1Ops).value <= SolvableSum(eqs, Part2Ops).value
  {
    if eqs != [] {
      var e := eqs[|eqs| - 1];
      assert AllPositive(eqs[..|eqs| - 1]);
      Part1AtMostPart2(eqs[..|eqs| - 1]);
      SolvableIffReachable(e.target, e.values, Part1Ops);
      SolvableIffReachable(e.target, e.values, Part2Ops);
      ResultsGrow(e.values, Part1Ops, Part2Ops);
      if e.target in Results(e.values, Part2Ops) {
        ResultsPositive(e.values, Part2Ops, e.target);
      }
    }
  }

  /** Part 1: the sum of the targets reachable with `+` and `*`. */
  function SolvePart1(input: string): (r: Option<int>)
    ensures ParseInput(Lines(input)).None? ==> r.None?
    ensures ParseInput(Lines(input)).Some? ==> r == SolvableSum(ParseInput(Lines(input)).value, Part1Ops)
  {
    match ParseInput(Lines(input))
    case None => None
    case Some(eqs) => SolvableSum(eqs, Part1Ops)
  }

  /** Part 2: the same with `||` as a third operator; on positive values
      it never reports less than part 1. */
  function SolvePart2(input: string): (r: Option<int>)
    ensures ParseInput(Lines(input)).None? ==> r.None?
    ensures ParseInput(Lines(input)).Some? ==> r == SolvableSum(ParseInput(Lines(input)).value, Part2Ops)
    ensures ParseInput(Lines(input)).Some? && AllPositive(ParseInput(Lines(input)).value)
      ==> r.Some? && SolvePart1(input).Some? && SolvePart1(input).value <= r.value
  {
    match ParseInput(Lines(input))
    case None => None
    case Some(eqs) =>
      if AllPositive(eqs) then Part1AtMostPart2(eqs); SolvableSum(eqs, Part2Ops)
      else SolvableSum(eqs, Part2Ops)
  }

  /** `190: 10 19` is solved by `10 * 19`. */
  lemma ExampleProduct()
    ensures Solvable(190, [10, 19], Part1Ops) == Some(true)
  {
    var values: seq<int> := [10, 19];
    assert values[..1] == [10];
    assert TruncDiv(190, 19) == 10;
    assert TruncRem(190, 19) == 0;
    assert TryOps(190, [10], 19, Part1Ops, 1) == Some(true);
  }

  /** `83: 17 5` has no solution, even with concatenation. */
  lemma ExampleUnsolvable()
    ensures Solvable(83, [17, 5], Part2Ops) == Some(false)
  {
    var values: seq<int> := [17, 5];
    assert values[..1] == [17];
    assert Multiplier(5) == 10;
    assert TruncRem(83, 10) == 3;
    assert TryOps(83, [17], 5, Part2Ops, 2) == Some(false);
    assert TruncRem(83, 5) == 3;
    assert TryOps(83, [17], 5, Part2Ops, 1) == Some(false);
  }

  /** `156: 15 6` needs concatenation: unsolvable in part 1, solved in part 2. */
  lemma ExampleConcatenation()
    ensures Solvable(156, [15, 6], Part1Ops) == Some(false)
    ensures Solvable(156, [15, 6], Part2Ops) == Some(true)
  {
    var values: seq<int> := [15, 6];
    assert values[..1] == [15];
    assert TruncDiv(156, 6) == 26 && TruncRem(156, 6) == 0;
    assert TryOps(156, [15], 6, Part1Ops, 1) == Some(false);
    assert Multiplier(6) == 10;
    assert TruncDiv(156, 10) == 15 && TruncRem(156, 10) == 6;
    assert TryOps(156, [15], 6, Part2Ops, 2) == Some(true);
  }
}
