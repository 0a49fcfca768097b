/** A 1000 by 1000 grid of lights driven by rectangle commands
    (src/years/y2015/day06.rs). Part 1 switches lights on and off; part 2
    reads the same words as brightness changes. */
module LightGrid {
  import opened Wrappers
  import opened Text

  const Size := 1000

  datatype Action = Off | On | Toggle

  /** Which reading of the instruction words is used (`operation_mapper`). */
  datatype Part = Part1 | Part2

  type Point = (nat, nat)

  /** One instruction: an action on the inclusive rectangle `from..to`. */
  datatype Command = Command(action: Action, from: Point, to: Point)

  /** `to_operation_part_1`/`to_operation_part_2`: the word naming the
      action; any other word is `unreachable!`. */
  function ToAction(word: string): (r: Option<Action>)
    ensures r.Some? ==> ActionWord(r.value) == word
  {
    if word == "off" then Some(Off)
    else if word == "on" then Some(On)
    else if word == "toggle" then Some(Toggle)
    else None
  }

  function ActionWord(a: Action): string {
    match a
    case Off => "off"
    case On => "on"
    case Toggle => "toggle"
  }

  /** The new value of one light under an action. */
  function Apply(part: Part, a: Action, v: nat): nat {
    match (part, a)
    case (Part1, Off) => 0
    case (Part1, On) => 1
    case (Part1, Toggle) => if v == 1 then 0 else 1
    case (Part2, Off) => if v == 0 then 0 else v - 1
    case (Part2, On) => v + 1
    case (Part2, Toggle) => v + 2
  }

  /** Part 1 keeps every light at 0 or 1, and toggling twice is no change. */
  lemma Part1Switches(a: Action, v: nat)
    ensures Apply(Part1, a, v) <= 1
    ensures v <= 1 ==> Apply(Part1, Toggle, Apply(Part1, Toggle, v)) == v
  {
  }

  /** Part 2: turning off undoes turning on, brightness never drops by
      more than one, and toggling is two steps up. */
  lemma Part2Brightness(v: nat)
    ensures Apply(Part2, Off, Apply(Part2, On, v)) == v
    ensures Apply(Part2, Off, v) >= v - 1 && Apply(Part2, Off, v) <= v
    ensures Apply(Part2, Toggle, v) == Apply(Part2, On, Apply(Part2, On, v))
  {
  }

  /** `to_point`: "x,y"; a missing ',' or a piece that is not a number panics. */
  function ToPoint(s: string): (r: Option<Point>)
    ensures r.Some? ==> ',' in s
  {
    match SplitOnce(s, ',')
    case None => None
    case Some((xs, ys)) =>
      match (ParseNat(xs), ParseNat(ys))
      case (Some(x), Some(y)) => Some((x, y))
      case _ => None
  }

  /** One line of `parse_input`: split on ' ', five words ("turn on|off
      from through to") or four ("toggle from through to"); any other
      shape is `unreachable!`. */
  function ParseLine(line: string): Option<Command> {
    ParseWords(Split(line, ' '))
  }

  function ParseWords(words: seq<string>): Option<Command> {
    if |words| == 5 then MakeCommand(words[1], words[2], words[4])
    else if |words| == 4 then MakeCommand(words[0], words[1], words[3])
    else None
  }

  function MakeCommand(state: string, from: string, to: string): Option<Command> {
    match (ToAction(state), ToPoint(from), ToPoint(to))
    case (Some(a), Some(p), Some(q)) => Some(Command(a, p, q))
    case _ => None
  }

  function ParseLines(lines: seq<string>): (r: Option<seq<Command>>)
    ensures r.Some? <==> forall k :: 0 <= k < |lines| ==> ParseLine(lines[k]).Some?
    ensures r.Some? ==> (|r.value| == |lines|
      && forall k :: 0 <= k < |lines| ==> ParseLine(lines[k]) == Some(r.value[k]))
  {
    if lines == [] then Some([])
    else match (ParseLine(lines[0]), ParseLines(lines[1..]))
      case (Some(c), Some(cs)) => Some([c] + cs)
      case _ => None
  }

  /** One command per line; a line that is not a command panics. */
  function ParseInput(input: string): (r: Option<seq<Command>>)
    ensures (forall k :: 0 <= k < |Lines(input)| ==> ParseLine(Lines(input)[k]).Some?) ==> r.Some?
    ensures r.Some? ==> (|r.value| == |Lines(input)|
      && forall k :: 0 <= k < |Lines(input)| ==> ParseLine(Lines(input)[k]) == Some(r.value[k]))
  {
    var lines := Lines(input);
    var cmds := ParseLines(lines);
    assert (forall k :: 0 <= k < |lines| ==> ParseLine(lines[k]).Some?) ==> cmds.Some?;
    cmds
  }

  /** The text of a point and of a command, as the input writes them. */
  function PointText(p: Point): string {
    NatToString(p.0) + "," + NatToString(p.1)
  }

  /** The words of a command's line. */
  function Words(c: Command): seq<string> {
    match c.action
    case Toggle => ["toggle", PointText(c.from), "through", PointText(c.to)]
    case _ => ["turn", ActionWord(c.action), PointText(c.from), "through", PointText(c.to)]
  }

  function CommandText(c: Command): string {
    Join(Words(c), ' ')
  }

  lemma ToPointText(p: Point)
    ensures ToPoint(PointText(p)) == Some(p)
    ensures ' ' !in PointText(p)
  {
    var xs, ys := NatToString(p.0), NatToString(p.1);
    NatToStringHasNo(p.0, ',');
    NatToStringHasNo(p.0, ' ');
    NatToStringHasNo(p.1, ' ');
    var s := PointText(p);
    assert s == xs + [','] + ys;
    assert s[|xs|] == ',' && s[..|xs|] == xs && s[|xs| + 1..] == ys;
    IndexOfFirst(s, ',', |xs|);
    ParseNatToString(p.0);
    ParseNatToString(p.1);
  }

  /** Parsing the text of a command gives the command back. */
  lemma ParseCommandText(c: Command)
    ensures ParseLine(CommandText(c)) == Some(c)
  {
    WordsHaveNoSpace(c);
    SplitJoin(Words(c), ' ');
    ParseWordsOf(c);
  }

  lemma WordsHaveNoSpace(c: Command)
    ensures forall k :: 0 <= k < |Words(c)| ==> ' ' !in Words(c)[k]
  {
    ToPointText(c.from);
    ToPointText(c.to);
    assert ' ' !in ActionWord(c.action);
  }

  lemma ParseWordsOf(c: Command)
    ensures ParseWords(Words(c)) == Some(c)
  {
    ToPointText(c.from);
    ToPointText(c.to);
    assert ToAction(ActionWord(c.action)) == Some(c.action);
  }

  predicate Covers(c: Command, x: nat, y: nat) {
    c.from.0 <= x <= c.to.0 && c.from.1 <= y <= c.to.1
  }

  /** Indexing the 1000 by 1000 grid out of range panics; an empty
      rectangle touches nothing and so never does. */
  predicate Panics(c: Command) {
    c.from.0 <= c.to.0 && c.from.1 <= c.to.1 && (c.to.0 >= Size || c.to.1 >= Size)
  }

  /** The value of light (x, y) after `cmds`, starting from 0. */
  function CellValue(part: Part, cmds: seq<Command>, x: nat, y: nat): nat {
    if cmds == [] then 0
    else
      var v := CellValue(part, cmds[..|cmds| - 1], x, y);
      var c := cmds[|cmds| - 1];
      if Covers(c, x, y) then Apply(part, c.action, v) else v
  }

  /** A light no command covers stays at 0. */
  lemma {:induction false} UncoveredStaysOff(part: Part, cmds: seq<Command>, x: nat, y: nat)
    requires forall k :: 0 <= k < |cmds| ==> !Covers(cmds[k], x, y)
    ensures CellValue(part, cmds, x, y) == 0
  {
    if cmds != [] {
      UncoveredStaysOff(part, cmds[..|cmds| - 1], x, y);
    }
  }

  /** The contribution of a light to the answer: whether it is on (part 1)
      or its brightness (part 2). */
  function Measure(part: Part, v: nat): nat {
    if part == Part1 then (if v == 1 then 1 else 0) else v
  }

  function RowTotal(part: Part, cmds: seq<Command>, y: nat, w: nat): nat {
    if w == 0 then 0 else RowTotal(part, cmds, y, w - 1) + Measure(part, CellValue(part, cmds, w - 1, y))
  }

  function GridTotal(part: Part, cmds: seq<Command>, h: nat): nat {
    if h == 0 then 0 else GridTotal(part, cmds, h - 1) + RowTotal(part, cmds, h - 1, Size)
  }

  /** Part 1 counts at most every light once. */
  lemma {:induction false} Part1AtMostAll(cmds: seq<Command>, h: nat)
    ensures GridTotal(Part1, cmds, h) <= h * Size
  {
    if h > 0 {
      Part1AtMostAll(cmds, h - 1);
      RowAtMostAll(cmds, h - 1, Size);
    }
  }

  lemma {:induction false} RowAtMostAll(cmds: seq<Command>, y: nat, w: nat)
    ensures RowTotal(Part1, cmds, y, w) <= w
  {
    if w > 0 {
      RowAtMostAll(cmds, y, w - 1);
    }
  }

  /** The nested loops of one command: every light of the rectangle gets
      the action, every other light keeps its value. */
  method ApplyCommand(grid: array2<nat>, part: Part, c: Command)
    requires grid.Length0 == Size && grid.Length1 == Size
    requires !Panics(c)
    modifies grid
    ensures forall y, x :: 0 <= y < Size && 0 <= x < Size ==>
      grid[y, x] == if Covers(c, x, y) then Apply(part, c.action, old(grid[y, x])) else old(grid[y, x])
  {
    var y := c.from.1;
    while y <= c.to.1
      invariant c.from.1 <= y && (y <= c.to.1 + 1 || y == c.from.1)
      invariant forall y', x' :: 0 <= y' < Size && 0 <= x' < Size ==>
        grid[y', x'] == if Covers(c, x', y') && y' < y then Apply(part, c.action, old(grid[y', x'])) else old(grid[y', x'])
      decreases c.to.1 + 1 - y
    {
      var x := c.from.0;
      while x <= c.to.0
        invariant c.from.0 <= x && (x <= c.to.0 + 1 || x == c.from.0)
        invariant x > c.from.0 ==> y < Size
        invariant forall y', x' :: 0 <= y' < Size && 0 <= x' < Size ==>
          grid[y', x'] == if Covers(c, x', y') && (y' < y || (y' == y && x' < x))
            then Apply(part, c.action, old(grid[y', x'])) else old(grid[y', x'])
        decreases c.to.0 + 1 - x
      {
        grid[y, x] := Apply(part, c.action, grid[y, x]);
        x := x + 1;
      }
      y := y + 1;
    }
  }

  /** Runs the commands in order on the grid; stops with `false` at the
      first one whose rectangle leaves the grid. */
  method RunCommands(grid: array2<nat>, part: Part, cmds: seq<Command>) returns (ok: bool)
    requires grid.Length0 == Size && grid.Length1 == Size
    requires forall y, x :: 0 <= y < Size && 0 <= x < Size ==> grid[y, x] == 0
    modifies grid
    ensures ok <==> forall k :: 0 <= k < |cmds| ==> !Panics(cmds[k])
    ensures ok ==> forall y, x :: 0 <= y < Size && 0 <= x < Size ==> grid[y, x] == CellValue(part, cmds, x, y)
  {
    for i := 0 to |cmds|
      invariant forall k :: 0 <= k < i ==> !Panics(cmds[k])
      invariant forall y, x :: 0 <= y < Size && 0 <= x < Size ==> grid[y, x] == CellValue(part, cmds[..i], x, y)
    {
      if Panics(cmds[i]) {
        return false;
      }
      ApplyCommand(grid, part, cmds[i]);
      assert cmds[..i + 1][..i] == cmds[..i];
    }
    assert cmds[..|cmds|] == cmds;
    return true;
  }

  /** The final folds: the number of lights at 1 (part 1) or the sum of
      all brightnesses (part 2). */
  method AddUp(grid: array2<nat>, part: Part, ghost cmds: seq<Command>) returns (total: nat)
    requires grid.Length0 == Size && grid.Length1 == Size
    requires forall y, x :: 0 <= y < Size && 0 <= x < Size ==> grid[y, x] == CellValue(part, cmds, x, y)
    ensures total == GridTotal(part, cmds, Size)
  {
    total := 0;
    for y := 0 to Size
      invariant total == GridTotal(part, cmds, y)
    {
      var x := 0;
      while x < Size
        invariant 0 <= x <= Size
        invariant total == GridTotal(part, cmds, y) + RowTotal(part, cmds, y, x)
      {
        total := total + Measure(part, grid[y, x]);
        x := x + 1;
      }
    }
  }

  /** `solve_part_1`/`solve_part_2`: parse, run every command on a grid of
      zeros, and add up the lights. `None` stands for the panics: a line
      that does not parse or a rectangle that leaves the grid. */
  method Solve(part: Part, input: string) returns (r: Option<nat>)
    ensures r.None? <==> (ParseInput(input).None?
      || exists k :: 0 <= k < |ParseInput(input).value| && Panics(ParseInput(input).value[k]))
    ensures r.Some? ==> r.value == GridTotal(part, ParseInput(input).value, Size)
  {
    var parsed := ParseInput(input);
    if parsed.None? {
      return None;
    }
    var grid := new nat[Size, Size]((y, x) => 0);
    var ok := RunCommands(grid, part, parsed.value);
    if !ok {
      return None;
    }
    var total := AddUp(grid, part, parsed.value);
    return Some(total);
  }
}
