/** Claw contraption (src/years/y2024/day13.rs). A machine has two buttons,
    each moving the claw by a fixed step in x and y, and a prize; pressing
    A costs 3 tokens and B costs 1. The number of presses of each button
    is found with Cramer's rule on the 2x2 system, in integers. */
module ClawMachines {
  import opened Wrappers
  import opened Text
  import opened Sums
  import opened Ints

  /** A point `(x, y)`; `isize` in the source. */
  type Point = (int, int)

  datatype Machine = Machine(buttonA: Point, buttonB: Point, prize: Point)

  /** The shift that part 2 adds to both prize coordinates. */
  const PrizeOffset: int := 10_000_000_000_000

  /** Pressing A `a` times and B `b` times puts the claw on the prize
      moved by `offset` in both directions. */
  predicate Reaches(m: Machine, offset: int, a: int, b: int) {
    a * m.buttonA.0 + b * m.buttonB.0 == m.prize.0 + offset
    && a * m.buttonA.1 + b * m.buttonB.1 == m.prize.1 + offset
  }

  /** The determinant `by * ax - bx * ay` of the system. */
  function Determinant(m: Machine): int {
    m.buttonB.1 * m.buttonA.0 - m.buttonB.0 * m.buttonA.1
  }

  /** `solve`: the cost `3a + b` of the presses Cramer's rule gives, or 0
      when the determinant is 0 or either quotient is not exact. */
  function Solve(m: Machine, offset: int): (r: int)
    ensures Determinant(m) == 0 ==> r == 0
  {
    var (xa, ya) := m.buttonA;
    var (xb, yb) := m.buttonB;
    var xp := m.prize.0 + offset;
    var yp := m.prize.1 + offset;
    var d := yb * xa - xb * ya;
    var da := yb * xp - xb * yp;
    var db := xa * yp - ya * xp;
    if d == 0 then 0
    else if TruncRem(da, d) == 0 && TruncRem(db, d) == 0 then 3 * TruncDiv(da, d) + TruncDiv(db, d)
    else 0
  }

  /** The numerators of Cramer's rule. */
  function NumeratorA(m: Machine, offset: int): int {
    m.buttonB.1 * (m.prize.0 + offset) - m.buttonB.0 * (m.prize.1 + offset)
  }

  function NumeratorB(m: Machine, offset: int): int {
    m.buttonA.0 * (m.prize.1 + offset) - m.buttonA.1 * (m.prize.0 + offset)
  }

  /** When both quotients are exact, they are press counts that reach the
      prize, and `solve` returns what they cost. */
  lemma SolveReaches(m: Machine, offset: int)
    requires Determinant(m) != 0
    requires TruncRem(NumeratorA(m, offset), Determinant(m)) == 0
    requires TruncRem(NumeratorB(m, offset), Determinant(m)) == 0
    ensures Reaches(m, offset, TruncDiv(NumeratorA(m, offset), Determinant(m)), TruncDiv(NumeratorB(m, offset), Determinant(m)))
    ensures Solve(m, offset) == 3 * TruncDiv(NumeratorA(m, offset), Determinant(m)) + TruncDiv(NumeratorB(m, offset), Determinant(m))
  {
    var d := Determinant(m);
    var a := TruncDiv(NumeratorA(m, offset), d);
    var b := TruncDiv(NumeratorB(m, offset), d);
    assert NumeratorA(m, offset) == d * a;
    assert NumeratorB(m, offset) == d * b;
    CramerX(m.buttonA.0, m.buttonA.1, m.buttonB.0, m.buttonB.1, m.prize.0 + offset, m.prize.1 + offset, a, b);
    CramerY(m.buttonA.0, m.buttonA.1, m.buttonB.0, m.buttonB.1, m.prize.0 + offset, m.prize.1 + offset, a, b);
  }

  /** Multiplying the first equation through by the determinant. */
  lemma CramerX(xa: int, ya: int, xb: int, yb: int, xp: int, yp: int, a: int, b: int)
    requires yb * xa - xb * ya != 0
    requires yb * xp - xb * yp == (yb * xa - xb * ya) * a
    requires xa * yp - ya * xp == (yb * xa - xb * ya) * b
    ensures a * xa + b * xb == xp
  {
    var d := yb * xa - xb * ya;
    calc {
      d * (a * xa + b * xb);
      (d * a) * xa + (d * b) * xb;
      (yb * xp - xb * yp) * xa + (xa * yp - ya * xp) * xb;
      d * xp;
    }
    Cancel(d, a * xa + b * xb, xp);
  }

  /** ... and the second. */
  lemma CramerY(xa: int, ya: int, xb: int, yb: int, xp: int, yp: int, a: int, b: int)
    requires yb * xa - xb * ya != 0
    requires yb * xp - xb * yp == (yb * xa - xb * ya) * a
    requires xa * yp - ya * xp == (yb * xa - xb * ya) * b
    ensures a * ya + b * yb == yp
  {
    var d := yb * xa - xb * ya;
    calc {
      d * (a * ya + b * yb);
      (d * a) * ya + (d * b) * yb;
      (yb * xp - xb * yp) * ya + (xa * yp - ya * xp) * yb;
      d * yp;
    }
    Cancel(d, a * ya + b * yb, yp);
  }

  lemma Cancel(d: int, x: int, y: int)
    requires d != 0 && d * x == d * y
    ensures x == y
  {
    assert d * (x - y) == 0;
  }

  /** Conversely, any presses that reach the prize make both quotients
      exact, so `solve` returns exactly their cost: with a non-zero
      determinant the solution is unique. */
  lemma SolutionCost(m: Machine, offset: int, a: int, b: int)
    requires Determinant(m) != 0 && Reaches(m, offset, a, b)
    ensures Solve(m, offset) == 3 * a + b
  {
    var (xa, ya) := m.buttonA;
    var (xb, yb) := m.buttonB;
    var xp := m.prize.0 + offset;
    var yp := m.prize.1 + offset;
    var d := Determinant(m);
    Eliminate(xa, ya, xb, yb, a, b);
    TruncExact(yb * xp - xb * yp, d, a);
    TruncExact(xa * yp - ya * xp, d, b);
  }

  /** Substituting the presses into the numerators leaves the determinant
      times each press count. */
  lemma Eliminate(xa: int, ya: int, xb: int, yb: int, a: int, b: int)
    ensures yb * (a * xa + b * xb) - xb * (a * ya + b * yb) == (yb * xa - xb * ya) * a
    ensures xa * (a * ya + b * yb) - ya * (a * xa + b * xb) == (yb * xa - xb * ya) * b
  {
    calc {
      yb * (a * xa + b * xb) - xb * (a * ya + b * yb);
      yb * a * xa + yb * b * xb - xb * a * ya - xb * b * yb;
      (yb * xa - xb * ya) * a;
    }
    calc {
      xa * (a * ya + b * yb) - ya * (a * xa + b * xb);
      xa * a * ya + xa * b * yb - ya * a * xa - ya * b * xb;
      (yb * xa - xb * ya) * b;
    }
  }

  /** So `solve` is 0 whenever no presses reach the prize. */
  lemma NoSolutionCostsNothing(m: Machine, offset: int)
    requires forall a, b :: !Reaches(m, offset, a, b)
    ensures Solve(m, offset) == 0
  {
    var d := Determinant(m);
    if d != 0 && TruncRem(NumeratorA(m, offset), d) == 0 && TruncRem(NumeratorB(m, offset), d) == 0 {
      SolveReaches(m, offset);
      assert false;
    }
  }

  /** The machine with its prize moved by `offset` in both directions. */
  function Shift(m: Machine, offset: int): (r: Machine)
    ensures r.buttonA == m.buttonA && r.buttonB == m.buttonB
    ensures r.prize.0 - m.prize.0 == offset == r.prize.1 - m.prize.1
  {
    Machine(m.buttonA, m.buttonB, (m.prize.0 + offset, m.prize.1 + offset))
  }

  /** Solving with an offset is solving the shifted machine. */
  lemma SolveShift(m: Machine, offset: int)
    ensures Solve(m, offset) == Solve(Shift(m, offset), 0)
    ensures forall a, b :: Reaches(m, offset, a, b) <==> Reaches(Shift(m, offset), 0, a, b)
  {
  }

  /** The sum of `solve` over the machines, as `part1` and `part2` sum it. */
  function TotalCost(machines: seq<Machine>, offset: int): int {
    Sum(seq(|machines|, i requires 0 <= i < |machines| => Solve(machines[i], offset)))
  }

  /** Part 2 is part 1 on the machines with their prizes moved. */
  lemma TotalCostShift(machines: seq<Machine>, offset: int)
    ensures TotalCost(machines, offset) == TotalCost(seq(|machines|, i requires 0 <= i < |machines| => Shift(machines[i], offset)), 0)
  {
    var shifted := seq(|machines|, i requires 0 <= i < |machines| => Shift(machines[i], offset));
    forall i | 0 <= i < |machines|
      ensures Solve(machines[i], offset) == Solve(shifted[i], 0)
    {
      SolveShift(machines[i], offset);
    }
    assert seq(|machines|, i requires 0 <= i < |machines| => Solve(machines[i], offset))
      == seq(|shifted|, i requires 0 <= i < |shifted| => Solve(shifted[i], 0));
  }

  /** The four machines of the examples cost 280, 0, 200 and 0. */
  lemma ExampleMachines()
    ensures Solve(Machine((94, 34), (22, 67), (8400, 5400)), 0) == 280
    ensures Solve(Machine((26, 66), (67, 21), (12748, 12176)), 0) == 0
    ensures Solve(Machine((17, 86), (84, 37), (7870, 6450)), 0) == 200
    ensures Solve(Machine((69, 23), (27, 71), (18641, 10279)), 0) == 0
  {
    SolutionCost(Machine((94, 34), (22, 67), (8400, 5400)), 0, 80, 40);
    SolutionCost(Machine((17, 86), (84, 37), (7870, 6450)), 0, 38, 86);
    assert TruncRem(67 * 12748 - 21 * 12176, 67 * 26 - 21 * 66) != 0;
    assert TruncRem(27 * 18641 - 71 * 10279, 71 * 69 - 27 * 23) != 0;
  }

  // ---------------------------------------------------------------
  // Parsing

  /** A number written out, followed by a non-digit or nothing, is one
      match with that value. */
  lemma DigitRunsNumber(x: nat, t: string)
    requires t == [] || !IsDigit(t[0])
    ensures DigitRuns(NatToString(x) + t) == [x] + DigitRuns(t)
  {
    var w := NatToString(x);
    RunLengthOf(w, t);
    assert (w + t)[..|w|] == w;
    assert (w + t)[|w|..] == t;
    DigitsValueOfNatToString(x);
  }

  /** `parse_point`: exactly two matches of `\d+`; any other count
      panics. */
  function ParsePoint(s: string): (r: Option<Point>)
    ensures r.Some? <==> |DigitRuns(s)| == 2
    ensures r.Some? ==> r.value == (DigitRuns(s)[0], DigitRuns(s)[1])
  {
    var runs := DigitRuns(s);
    if |runs| == 2 then Some((runs[0] as int, runs[1] as int)) else None
  }

  /** `X+<x>, Y+<y>`, as the button lines write their steps (`sep` is
      '+'), or `X=<x>, Y=<y>` as the prize line does (`sep` is '='). */
  function FormatPoint(sep: char, x: nat, y: nat): string {
    "X" + [sep] + NatToString(x) + ", Y" + [sep] + NatToString(y)
  }

  /** Reading back a point that was written out gives it back. */
  lemma ParseFormatPoint(sep: char, x: nat, y: nat)
    requires !IsDigit(sep)
    ensures ParsePoint(FormatPoint(sep, x, y)) == Some((x as int, y as int))
  {
    var sx, sy := NatToString(x), NatToString(y);
    var lead: string := "X" + [sep];
    var mid: string := ", Y" + [sep];
    var tail := mid + sy;
    assert FormatPoint(sep, x, y) == lead + (sx + tail);
    DigitRunsNumber(y, []);
    assert sy + [] == sy;
    NoDigits(mid);
    SkipNonDigits(mid, sy);
    assert DigitRuns(tail) == [y];
    assert tail[0] == ',';
    DigitRunsNumber(x, tail);
    NoDigits(lead);
    SkipNonDigits(lead, sx + tail);
  }

  lemma NoDigits(s: string)
    requires |s| == 2 || |s| == 4
    requires forall k :: 0 <= k < |s| ==> s[k] in ",XY +=" || !IsDigit(s[k])
    ensures forall k :: 0 <= k < |s| ==> !IsDigit(s[k])
  {
  }

  /** One line of a machine: the point written after its first ": ". */
  function ParseField(line: string): Option<Point> {
    match SplitOnceStr(line, ": ")
    case Some((_, text)) => ParsePoint(text)
    case None => None
  }

  /** `Machine::from_str`: the first three lines of the trimmed chunk, each
      cut at its first ": "; a missing line or separator panics. Lines past
      the third are never read. */
  function ParseMachine(chunk: string): (r: Option<Machine>)
    ensures var lines := Lines(Trim(chunk));
      r.Some? <==> (|lines| >= 3
        && ParseField(lines[0]).Some? && ParseField(lines[1]).Some? && ParseField(lines[2]).Some?)
    ensures var lines := Lines(Trim(chunk));
      r.Some? ==> (|lines| >= 3 && r.value.buttonA == ParseField(lines[0]).value
        && r.value.buttonB == ParseField(lines[1]).value && r.value.prize == ParseField(lines[2]).value)
  {
    var lines := Lines(Trim(chunk));
    if |lines| < 3 then None
    else
      match (ParseField(lines[0]), ParseField(lines[1]), ParseField(lines[2]))
      case (Some(pa), Some(pb), Some(pp)) => Some(Machine(pa, pb, pp))
      case _ => None
  }

  /** `input.split(pat)` for a non-empty string pattern. */
  function SplitStr(s: string, pat: string): (pieces: seq<string>)
    requires pat != []
    ensures |pieces| >= 1
    decreases |s|
  {
    match SplitOnceStr(s, pat)
    case None => [s]
    case Some((before, after)) =>
      assert |after| < |s| by {
        assert |before| + |pat| + |after| == |s|;
      }
      [before] + SplitStr(after, pat)
  }

  /** The pieces glued back with the pattern. */
  function JoinStr(pieces: seq<string>, pat: string): string
    requires |pieces| >= 1
  {
    if |pieces| == 1 then pieces[0] else pieces[0] + pat + JoinStr(pieces[1..], pat)
  }

  /** Splitting loses nothing: the pieces glue back to the input. */
  lemma {:induction false} JoinSplitStr(s: string, pat: string)
    requires pat != []
    ensures JoinStr(SplitStr(s, pat), pat) == s
    decreases |s|
  {
    match SplitOnceStr(s, pat)
    case None =>
    case Some((before, after)) =>
      assert |before| + |pat| + |after| == |s|;
      JoinSplitStr(after, pat);
      assert SplitStr(s, pat)[1..] == SplitStr(after, pat);
  }

  /** `parse_input`: one machine per blank-line separated chunk; a chunk
      that does not parse panics. */
  function ParseInput(input: string): (r: Option<seq<Machine>>)
    ensures (forall k :: 0 <= k < |SplitStr(input, "\n\n")| ==> ParseMachine(SplitStr(input, "\n\n")[k]).Some?)
      ==> r.Some?
    ensures r.Some? ==> |r.value| == |SplitStr(input, "\n\n")|
    ensures r.Some? ==> forall k :: 0 <= k < |r.value| ==> ParseMachine(SplitStr(input, "\n\n")[k]) == Some(r.value[k])
  {
    var chunks := SplitStr(input, "\n\n");
    var machines := MapAll(chunks, ParseMachine);
    assert forall k :: 0 <= k < |chunks| ==> ParseMachine(chunks[k]) == (ParseMachine)(chunks[k]);
    assert (forall k :: 0 <= k < |chunks| ==> ParseMachine(chunks[k]).Some?) ==> machines.Some?;
    machines
  }

  /** `part1`: the total cost with the prizes where they are. */
  function Part1(input: string): (r: Option<int>)
    ensures r.Some? <==> ParseInput(input).Some?
    ensures r.Some? ==> r.value == TotalCost(ParseInput(input).value, 0)
  {
    match ParseInput(input)
    case Some(machines) => Some(TotalCost(machines, 0))
    case None => None
  }

  /** `part2`: the same with every prize moved by 10^13 in both directions. */
  function Part2(input: string): (r: Option<int>)
    ensures r.Some? <==> ParseInput(input).Some?
    ensures r.Some? ==> r.value == TotalCost(ParseInput(input).value, PrizeOffset)
  {
    match ParseInput(input)
    case Some(machines) => Some(TotalCost(machines, PrizeOffset))
    case None => None
  }
}
