/** Reactor safety reports (src/days/day02.rs): a report is safe when its
    levels move in one direction by steps of one to three, and tolerable
    when dropping a single level makes it safe. */
module Reports {
  import opened Wrappers
  import opened Text

  type Report = seq<nat>

  /** `is_ascending`: every window of two strictly increases. */
  predicate Ascending(r: Report) {
    forall i :: 0 <= i < |r| - 1 ==> r[i] < r[i + 1]
  }

  /** `is_descending`: every window of two strictly decreases. */
  predicate Descending(r: Report) {
    forall i :: 0 <= i < |r| - 1 ==> r[i] > r[i + 1]
  }

  function AbsDiff(a: nat, b: nat): nat {
    if a < b then b - a else a - b
  }

  /** `is_tight`: no two neighbours are more than `maxGap` apart. */
  predicate Tight(r: Report, maxGap: nat) {
    forall i :: 0 <= i < |r| - 1 ==> AbsDiff(r[i], r[i + 1]) <= maxGap
  }

  /** `is_valid`. */
  predicate IsValid(r: Report) {
    (Ascending(r) || Descending(r)) && Tight(r, 3)
  }

  /** Ascending is a statement about every pair, not only neighbours. */
  lemma {:induction false} AscendingStrictlySorted(r: Report, i: int, j: int)
    requires Ascending(r) && 0 <= i < j < |r|
    ensures r[i] < r[j]
    decreases j - i
  {
    if j > i + 1 {
      AscendingStrictlySorted(r, i + 1, j);
    }
  }

  lemma {:induction false} DescendingStrictlySorted(r: Report, i: int, j: int)
    requires Descending(r) && 0 <= i < j < |r|
    ensures r[i] > r[j]
    decreases j - i
  {
    if j > i + 1 {
      DescendingStrictlySorted(r, i + 1, j);
    }
  }

  /** A valid report never repeats a level. */
  lemma ValidHasNoRepeats(r: Report, i: int, j: int)
    requires IsValid(r) && 0 <= i < j < |r|
    ensures r[i] != r[j]
  {
    if Ascending(r) {
      AscendingStrictlySorted(r, i, j);
    } else {
      DescendingStrictlySorted(r, i, j);
    }
  }

  /** Reports with fewer than two levels have no windows, so they are valid. */
  lemma ShortReportsValid(r: Report)
    requires |r| <= 1
    ensures IsValid(r)
  {
  }

  /** A report with two levels or more cannot be both ascending and descending. */
  lemma NotBothDirections(r: Report)
    requires |r| >= 2
    ensures !(Ascending(r) && Descending(r))
  {
    assert r[0] < r[1] || r[0] >= r[1];
  }

  function Reverse(r: Report): (v: Report)
    ensures |v| == |r| && forall k :: 0 <= k < |r| ==> v[k] == r[|r| - 1 - k]
  {
    if r == [] then [] else Reverse(r[1..]) + [r[0]]
  }

  /** Reading a report backwards swaps the two directions ... */
  lemma ReverseSwapsDirections(r: Report)
    ensures Ascending(Reverse(r)) <==> Descending(r)
    ensures Descending(Reverse(r)) <==> Ascending(r)
  {
    var v, n := Reverse(r), |r|;
    if Descending(r) {
      forall i | 0 <= i < n - 1 ensures v[i] < v[i + 1] {
        assert r[n - 2 - i] > r[n - 2 - i + 1];
      }
    }
    if Ascending(v) {
      forall i | 0 <= i < n - 1 ensures r[i] > r[i + 1] {
        assert v[n - 2 - i] < v[n - 2 - i + 1];
      }
    }
    if Ascending(r) {
      forall i | 0 <= i < n - 1 ensures v[i] > v[i + 1] {
        assert r[n - 2 - i] < r[n - 2 - i + 1];
      }
    }
    if Descending(v) {
      forall i | 0 <= i < n - 1 ensures r[i] < r[i + 1] {
        assert v[n - 2 - i] > v[n - 2 - i + 1];
      }
    }
  }

  /** ... and keeps every gap ... */
  lemma ReverseKeepsGaps(r: Report, maxGap: nat)
    ensures Tight(Reverse(r), maxGap) <==> Tight(r, maxGap)
  {
    var v, n := Reverse(r), |r|;
    if Tight(r, maxGap) {
      forall i | 0 <= i < n - 1 ensures AbsDiff(v[i], v[i + 1]) <= maxGap {
        assert AbsDiff(r[n - 2 - i], r[n - 2 - i + 1]) <= maxGap;
      }
    }
    if Tight(v, maxGap) {
      forall i | 0 <= i < n - 1 ensures AbsDiff(r[i], r[i + 1]) <= maxGap {
        assert AbsDiff(v[n - 2 - i], v[n - 2 - i + 1]) <= maxGap;
      }
    }
  }

  /** ... so it keeps validity. */
  lemma ReverseKeepsValidity(r: Report)
    ensures IsValid(Reverse(r)) <==> IsValid(r)
  {
    ReverseSwapsDirections(r);
    ReverseKeepsGaps(r, 3);
  }

  /** `copy.remove(i)`. */
  function RemoveAt(r: Report, i: nat): (v: Report)
    requires i < |r|
    ensures |v| == |r| - 1
    ensures forall k :: 0 <= k < i ==> v[k] == r[k]
    ensures forall k :: i <= k < |v| ==> v[k] == r[k + 1]
  {
    r[..i] + r[i + 1..]
  }

  /** What part 2 accepts: some single level can be dropped to leave a
      valid report. An empty report has no level to drop. */
  predicate Tolerable(r: Report) {
    exists i :: 0 <= i < |r| && IsValid(RemoveAt(r, i))
  }

  /** The filter closure of `solve_part_2`: try every index in order and
      stop at the first removal that is valid. */
  method CheckTolerable(r: Report) returns (b: bool)
    ensures b <==> Tolerable(r)
  {
    for i := 0 to |r|
      invariant forall k :: 0 <= k < i ==> !IsValid(RemoveAt(r, k))
    {
      var copy := RemoveAt(r, i);
      if IsValid(copy) {
        return true;
      }
    }
    return false;
  }

  /** A valid report of at least one level stays valid without its first
      level, so part 2 accepts it too. */
  lemma ValidIsTolerable(r: Report)
    requires IsValid(r) && |r| >= 1
    ensures Tolerable(r)
  {
    var v := RemoveAt(r, 0);
    assert forall k :: 0 <= k < |v| ==> v[k] == r[k + 1];
    assert IsValid(v);
  }

  /** The one report part 1 accepts and part 2 rejects. */
  lemma EmptyReport()
    ensures IsValid([]) && !Tolerable([])
  {
  }

  /** Dropping a level from a report of two levels always leaves a valid
      report, whatever the levels are. */
  lemma PairsAreTolerable(a: nat, b: nat)
    ensures Tolerable([a, b])
  {
    assert RemoveAt([a, b], 0) == [b];
  }

  /** `solve_part_1`: the number of valid reports. */
  function CountValid(reports: seq<Report>): (n: nat)
    ensures n <= |reports|
  {
    if reports == [] then 0
    else
      var k := |reports| - 1;
      CountValid(reports[..k]) + (if IsValid(reports[k]) then 1 else 0)
  }

  /** The number of tolerable reports, which `solve_part_2` counts. */
  function CountTolerable(reports: seq<Report>): (n: nat)
    ensures n <= |reports|
  {
    if reports == [] then 0
    else
      var k := |reports| - 1;
      CountTolerable(reports[..k]) + (if Tolerable(reports[k]) then 1 else 0)
  }

  /** Part 2 never counts fewer reports than part 1 unless the input has
      empty reports, which only part 1 accepts. */
  lemma {:induction false} TolerantCountsMore(reports: seq<Report>)
    requires forall k :: 0 <= k < |reports| ==> reports[k] != []
    ensures CountValid(reports) <= CountTolerable(reports)
  {
    if reports != [] {
      var k := |reports| - 1;
      if IsValid(reports[k]) {
        ValidIsTolerable(reports[k]);
      }
      TolerantCountsMore(reports[..k]);
    }
  }

  /** `solve_part_2` over parsed reports: the filter runs the removal loop
      on each report in turn. */
  method CountTolerableReports(reports: seq<Report>) returns (n: nat)
    ensures n == CountTolerable(reports)
  {
    n := 0;
    for k := 0 to |reports|
      invariant n == CountTolerable(reports[..k])
    {
      assert reports[..k + 1][..k] == reports[..k];
      var ok := CheckTolerable(reports[k]);
      if ok {
        n := n + 1;
      }
    }
    assert reports[..|reports|] == reports;
  }

  /** `get_reports`: the trimmed input split on "\n", each line split on
      whitespace and every word parsed (a word that is not a number
      panics). A blank line gives an empty report. */
  function GetReports(input: string): (r: Option<seq<Report>>)
    ensures r.Some? ==> |r.value| == |Split(Trim(input), '\n')|
  {
    ParseReports(Split(Trim(input), '\n'))
  }

  function ParseReports(lines: seq<string>): (r: Option<seq<Report>>)
    ensures r.Some? <==> forall k :: 0 <= k < |lines| ==> ParseAllNats(SplitWhitespace(lines[k])).Some?
    ensures r.Some? ==> (|r.value| == |lines|
      && forall k :: 0 <= k < |lines| ==> ParseAllNats(SplitWhitespace(lines[k])) == Some(r.value[k]))
  {
    var opts := seq(|lines|, k requires 0 <= k < |lines| => ParseAllNats(SplitWhitespace(lines[k])));
    assert forall k :: 0 <= k < |lines| ==> opts[k] == ParseAllNats(SplitWhitespace(lines[k]));
    AllSome(opts)
  }

  /** Part 1: the number of safe reports; a line with a non-number panics. */
  function SolvePart1(input: string): (r: Option<nat>)
    ensures r.Some? <==> GetReports(input).Some?
    ensures r.Some? ==> r.value == CountValid(GetReports(input).value)
  {
    match GetReports(input)
    case None => None
    case Some(reports) => Some(CountValid(reports))
  }

  method SolvePart2(input: string) returns (r: Option<nat>)
    ensures r.None? <==> GetReports(input).None?
    ensures r.Some? ==> r.value == CountTolerable(GetReports(input).value)
  {
    match GetReports(input)
    case None => return None;
    case Some(reports) =>
      var n := CountTolerableReports(reports);
      return Some(n);
  }

  /** The direction checks on the unit-test values. */
  lemma AscendingExamples()
    ensures !Ascending([1, 1]) && !Ascending([1, 2, 3, 2]) && !Ascending([3, 2, 1])
    ensures Ascending([1, 2]) && Ascending([1, 2, 6, 19])
  {
    var a, b, c := [1, 1], [1, 2, 3, 2], [3, 2, 1];
    assert a[0] >= a[1];
    assert b[2] >= b[3];
    assert c[0] >= c[1];
  }

  lemma DescendingExamples()
    ensures !Descending([1, 1]) && !Descending([1, 2, 3, 2])
    ensures Descending([2, 1]) && Descending([10, 8, 6, 4])
  {
    var a, b := [1, 1], [1, 2, 3, 2];
    assert a[0] <= a[1];
    assert b[0] <= b[1];
  }

  /** The gap check on the unit-test values. */
  lemma TightExamples()
    ensures Tight([1, 2, 3], 2) && Tight([1, 3, 5], 2) && Tight([5, 3, 5], 2)
    ensures !Tight([1, 2, 5], 2) && !Tight([3, 2, 5], 2)
  {
    assert AbsDiff([1, 2, 5][1], [1, 2, 5][2]) > 2;
    assert AbsDiff([3, 2, 5][1], [3, 2, 5][2]) > 2;
  }

  /** The six reports of the puzzle's worked example. */
  const Example0: Report := [7, 6, 4, 2, 1]
  const Example1: Report := [1, 2, 7, 8, 9]
  const Example2: Report := [9, 7, 6, 2, 1]
  const Example3: Report := [1, 3, 2, 4, 5]
  const Example4: Report := [8, 6, 4, 4, 1]
  const Example5: Report := [1, 3, 6, 7, 9]

  const ExampleReports: seq<Report> :=
    [Example0, Example1, Example2, Example3, Example4, Example5]

  lemma ExampleValid()
    ensures IsValid(Example0) && IsValid(Example5)
  {
    var a, b := Example0, Example5;
    assert Descending(a) && Tight(a, 3) by {
      assert |a| == 5 && a[0] == 7 && a[1] == 6 && a[2] == 4 && a[3] == 2 && a[4] == 1;
    }
    assert Ascending(b) && Tight(b, 3) by {
      assert |b| == 5 && b[0] == 1 && b[1] == 3 && b[2] == 6 && b[3] == 7 && b[4] == 9;
    }
  }

  /** A jump of more than three between two neighbours that stay
      neighbours after a removal. */
  lemma WideGapInvalid(r: Report, i: nat)
    requires i + 1 < |r| && AbsDiff(r[i], r[i + 1]) > 3
    ensures !IsValid(r)
  {
  }

  lemma ExampleInvalid()
    ensures !IsValid(Example1) && !IsValid(Example2)
    ensures !IsValid(Example3) && !IsValid(Example4)
  {
    WideGapInvalid(Example1, 1);
    WideGapInvalid(Example2, 2);
    var c, d := Example3, Example4;
    assert c[0] < c[1] && c[1] > c[2];
    assert d[2] == d[3];
  }

  /** Removing any one level from [1, 2, 7, 8, 9] leaves a jump of at
      least five. */
  lemma ExampleIntolerableRising()
    ensures !Tolerable(Example1)
  {
    var r := Example1;
    forall i | 0 <= i < |r| ensures !IsValid(RemoveAt(r, i)) {
      if i <= 1 {
        WideGapInvalid(RemoveAt(r, i), 0);
      } else {
        WideGapInvalid(RemoveAt(r, i), 1);
      }
    }
  }

  lemma ExampleIntolerableFalling()
    ensures !Tolerable(Example2)
  {
    var r := Example2;
    forall i | 0 <= i < |r| ensures !IsValid(RemoveAt(r, i)) {
      if i <= 2 {
        WideGapInvalid(RemoveAt(r, i), 1);
      } else {
        WideGapInvalid(RemoveAt(r, i), 2);
      }
    }
  }

  lemma ExampleTolerable()
    ensures Tolerable(Example3) && Tolerable(Example4)
  {
    assert RemoveAt(Example3, 1) == [1, 2, 4, 5];
    assert RemoveAt(Example4, 2) == [8, 6, 4, 1];
  }

  /** The worked example: two reports are valid ... */
  lemma ExampleCountValid()
    ensures CountValid(ExampleReports) == 2
  {
    ExampleValid();
    ExampleInvalid();
    var e := ExampleReports;
    assert e[..5][..4] == e[..4] && e[..4][..3] == e[..3];
    assert e[..3][..2] == e[..2] && e[..2][..1] == e[..1] && e[..1][..0] == e[..0];
    assert CountValid(e[..1]) == 1;
    assert CountValid(e[..3]) == 1;
    assert CountValid(e[..5]) == 1;
  }

  function CountTrue(flags: seq<bool>): nat {
    if flags == [] then 0
    else CountTrue(flags[..|flags| - 1]) + (if flags[|flags| - 1] then 1 else 0)
  }

  /** Counting tolerable reports only needs to know, report by report,
      whether each is tolerable. */
  lemma {:induction false} CountTolerableByFlags(reports: seq<Report>, flags: seq<bool>)
    requires |flags| == |reports|
    requires forall k :: 0 <= k < |reports| ==> (Tolerable(reports[k]) <==> flags[k])
    ensures CountTolerable(reports) == CountTrue(flags)
  {
    if reports != [] {
      var k := |reports| - 1;
      CountTolerableByFlags(reports[..k], flags[..k]);
    }
  }

  /** Which reports of the worked example are tolerable. */
  lemma ExampleTolerableFlags()
    ensures forall k :: 0 <= k < |ExampleReports| ==>
      (Tolerable(ExampleReports[k]) <==> [true, false, false, true, true, true][k])
  {
    var e := ExampleReports;
    var flags := [true, false, false, true, true, true];
    forall k | 0 <= k < |e| ensures Tolerable(e[k]) <==> flags[k] {
      if k == 0 {
        ExampleValid();
        ValidIsTolerable(Example0);
      } else if k == 1 {
        ExampleIntolerableRising();
      } else if k == 2 {
        ExampleIntolerableFalling();
      } else if k == 5 {
        ExampleValid();
        ValidIsTolerable(Example5);
      } else {
        ExampleTolerable();
      }
    }
  }

  lemma ExampleFlags()
    ensures CountTrue([true, false, false, true, true, true]) == 4
  {
    var f := [true, false, false, true, true, true];
    assert f[..5][..4] == f[..4] && f[..4][..3] == f[..3];
    assert f[..3][..2] == f[..2] && f[..2][..1] == f[..1] && f[..1][..0] == [];
    assert CountTrue(f[..1]) == 1;
    assert CountTrue(f[..2]) == 1;
    assert CountTrue(f[..3]) == 1;
    assert CountTrue(f[..4]) == 2;
    assert CountTrue(f[..5]) == 3;
  }

  /** ... and four are tolerable. */
  lemma ExampleCountTolerable()
    ensures CountTolerable(ExampleReports) == 4
  {
    ExampleTolerableFlags();
    CountTolerableByFlags(ExampleReports, [true, false, false, true, true, true]);
    ExampleFlags();
  }
}
