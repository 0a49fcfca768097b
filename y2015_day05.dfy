/** Naughty or nice strings (src/years/y2015/day05.rs). The source states
    three of its rules as regular expressions with back-references; here
    each rule is a predicate saying what a match is, and a scanning
    function that looks for one is proved to agree with it. */
module NiceStrings {
  import opened Text

  /** The `[a-z]` character class. */
  predicate IsLower(c: char) {
    'a' <= c <= 'z'
  }

  predicate IsVowel(c: char) {
    c == 'a' || c == 'e' || c == 'i' || c == 'o' || c == 'u'
  }

  /** The number of characters of `s` found in "aeiou". */
  function VowelCount(s: string): (n: nat)
    ensures n <= |s|
  {
    if s == [] then 0 else (if IsVowel(s[0]) then 1 else 0) + VowelCount(s[1..])
  }

  /** The vowel count is the number of occurrences of the five vowels. */
  lemma {:induction false} VowelCountOccurrences(s: string)
    ensures VowelCount(s) == multiset(s)['a'] + multiset(s)['e'] + multiset(s)['i']
      + multiset(s)['o'] + multiset(s)['u']
  {
    if s != [] {
      VowelCountOccurrences(s[1..]);
      assert s == [s[0]] + s[1..];
      assert multiset(s) == multiset{s[0]} + multiset(s[1..]);
    }
  }

  /** `contains_vowels`. */
  predicate ContainsVowels(s: string, atLeast: nat) {
    VowelCount(s) >= atLeast
  }

  /** What a match of `([a-z])\1` is: a lower-case letter written twice in a row. */
  predicate DoubleAt(s: string, i: int) {
    0 <= i && i + 1 < |s| && IsLower(s[i]) && s[i + 1] == s[i]
  }

  /** `contains_duplicates`: the pattern matches somewhere. */
  function ContainsDuplicates(s: string): (b: bool)
    ensures b <==> exists i :: DoubleAt(s, i)
  {
    if |s| < 2 then false
    else if IsLower(s[0]) && s[1] == s[0] then
      assert DoubleAt(s, 0);
      true
    else
      var rest := ContainsDuplicates(s[1..]);
      assert forall i :: DoubleAt(s, i) && i > 0 ==> DoubleAt(s[1..], i - 1);
      assert forall i :: DoubleAt(s[1..], i) ==> DoubleAt(s, i + 1);
      rest
  }

  /** What a match of `([a-z])[a-z]\1` is: a lower-case letter, any
      lower-case letter, and the first letter again. */
  predicate SandwichAt(s: string, i: int) {
    0 <= i && i + 2 < |s| && IsLower(s[i]) && IsLower(s[i + 1]) && s[i + 2] == s[i]
  }

  /** `contains_sandwich`. */
  function ContainsSandwich(s: string): (b: bool)
    ensures b <==> exists i :: SandwichAt(s, i)
  {
    if |s| < 3 then false
    else if SandwichAt(s, 0) then true
    else
      var rest := ContainsSandwich(s[1..]);
      assert forall i :: SandwichAt(s, i) && i > 0 ==> SandwichAt(s[1..], i - 1);
      assert forall i :: SandwichAt(s[1..], i) ==> SandwichAt(s, i + 1);
      rest
  }

  predicate AllLower(s: string) {
    forall k :: 0 <= k < |s| ==> IsLower(s[k])
  }

  /** What a match of `([a-z][a-z])[a-z]*\1` is: two lower-case letters at
      `i`, the same two again at `j` without overlap, and only lower-case
      letters in between. */
  predicate PairAt(s: string, i: int, j: int) {
    0 <= i && i + 2 <= j && j + 2 <= |s|
    && IsLower(s[i]) && IsLower(s[i + 1])
    && s[j] == s[i] && s[j + 1] == s[i + 1]
    && AllLower(s[i + 2..j])
  }

  /** Looks for the repeat of the pair at `i`, trying `j`, `j + 1`, ...
      while the letters skipped are lower case. */
  function RepeatFrom(s: string, i: nat, j: nat): (b: bool)
    requires i + 2 <= j <= |s| && IsLower(s[i]) && IsLower(s[i + 1])
    requires AllLower(s[i + 2..j])
    ensures b <==> exists j' :: j <= j' && PairAt(s, i, j')
    decreases |s| - j
  {
    if j + 2 > |s| then false
    else if s[j] == s[i] && s[j + 1] == s[i + 1] then
      assert PairAt(s, i, j);
      true
    else if IsLower(s[j]) then
      assert s[i + 2..j + 1] == s[i + 2..j] + [s[j]];
      var rest := RepeatFrom(s, i, j + 1);
      assert forall j' :: j <= j' && PairAt(s, i, j') ==> j + 1 <= j';
      rest
    else
      assert forall j' :: j < j' && PairAt(s, i, j') ==> s[i + 2..j'][j - (i + 2)] == s[j];
      false
  }

  /** `contains_pairs`: tries every start `i` in order. */
  function PairsFrom(s: string, i: nat): (b: bool)
    requires i <= |s|
    ensures b <==> exists i', j :: i <= i' && PairAt(s, i', j)
    decreases |s| - i
  {
    if i + 4 > |s| then
      assert forall i', j :: PairAt(s, i', j) ==> i' + 4 <= |s|;
      false
    else
      var here := IsLower(s[i]) && IsLower(s[i + 1]) && RepeatFrom(s, i, i + 2);
      var rest := PairsFrom(s, i + 1);
      assert forall i', j :: i <= i' && PairAt(s, i', j) && i' != i ==> i + 1 <= i';
      here || rest
  }

  function ContainsPairs(s: string): (b: bool)
    ensures b <==> exists i, j :: PairAt(s, i, j)
  {
    PairsFrom(s, 0)
  }

  /** `does_not_contain`: none of `patterns` occurs in `s`. */
  function DoesNotContain(s: string, patterns: seq<string>): (b: bool)
    ensures b <==> forall k :: 0 <= k < |patterns| ==> !Contains(s, patterns[k])
  {
    if patterns == [] then true
    else !Contains(s, patterns[0]) && DoesNotContain(s, patterns[1..])
  }

  /** The rules a puzzle part checks. */
  datatype Validator =
    | Vowels(atLeast: nat)
    | Duplicates
    | Forbidden(patterns: seq<string>)
    | Pairs
    | Sandwich

  function Holds(v: Validator, s: string): bool {
    match v
    case Vowels(n) => ContainsVowels(s, n)
    case Duplicates => ContainsDuplicates(s)
    case Forbidden(ps) => DoesNotContain(s, ps)
    case Pairs => ContainsPairs(s)
    case Sandwich => ContainsSandwich(s)
  }

  /** `is_nice`: every validator accepts the string. */
  function IsNice(s: string, validators: seq<Validator>): (b: bool)
    ensures b <==> forall k :: 0 <= k < |validators| ==> Holds(validators[k], s)
    ensures validators == [] ==> b
  {
    if validators == [] then true
    else Holds(validators[0], s) && IsNice(s, validators[1..])
  }

  const Part1Rules := [Vowels(3), Duplicates, Forbidden(["ab", "cd", "pq", "xy"])]
  const Part2Rules := [Pairs, Sandwich]

  /** The number of nice lines. */
  function CountNice(lines: seq<string>, validators: seq<Validator>): (n: nat)
    ensures n <= |lines|
  {
    if lines == [] then 0
    else (if IsNice(lines[0], validators) then 1 else 0) + CountNice(lines[1..], validators)
  }

  /** Counting is additive over the lines. */
  lemma {:induction false} CountNiceAppend(a: seq<string>, b: seq<string>, validators: seq<Validator>)
    ensures CountNice(a + b, validators) == CountNice(a, validators) + CountNice(b, validators)
  {
    if a != [] {
      CountNiceAppend(a[1..], b, validators);
      assert (a + b)[1..] == a[1..] + b;
    } else {
      assert a + b == b;
    }
  }

  /** The indices of the nice lines. */
  ghost function NiceIndices(lines: seq<string>, validators: seq<Validator>): set<nat> {
    set k: nat | k < |lines| && IsNice(lines[k], validators)
  }

  /** The count is the number of lines the filter keeps. */
  lemma {:induction false} CountNiceIsNiceLines(lines: seq<string>, validators: seq<Validator>)
    ensures CountNice(lines, validators) == |NiceIndices(lines, validators)|
    decreases |lines|
  {
    if lines != [] {
      var init, last := lines[..|lines| - 1], lines[|lines| - 1];
      assert lines == init + [last];
      CountNiceIsNiceLines(init, validators);
      CountNiceAppend(init, [last], validators);
      assert [last][1..] == [];
      var before := NiceIndices(init, validators);
      if IsNice(last, validators) {
        assert NiceIndices(lines, validators) == before + {|init|};
      } else {
        assert NiceIndices(lines, validators) == before;
      }
    }
  }

  /** A nice string of part 1 has at least three characters (its three
      vowels), and one of part 2 at least four (a pair written twice
      without overlap). */
  lemma NiceLengths(s: string)
    ensures IsNice(s, Part1Rules) ==> |s| >= 3
    ensures IsNice(s, Part2Rules) ==> |s| >= 4
  {
    if IsNice(s, Part1Rules) {
      assert Holds(Part1Rules[0], s);
    }
    if IsNice(s, Part2Rules) {
      assert Holds(Part2Rules[0], s);
      var i, j :| PairAt(s, i, j);
    }
  }

  /** The pair rule needs two copies that do not overlap: "aaa" holds the
      pair "aa" only overlapping itself, "aaaa" holds it twice. */
  lemma PairsDoNotOverlap()
    ensures !ContainsPairs("aaa")
    ensures ContainsPairs("aaaa")
  {
    assert PairAt("aaaa", 0, 2);
  }

  /** Examples of the puzzle statement: a string with three vowels, a
      double letter and none of the forbidden pairs is nice in part 1;
      one with a forbidden pair is not. */
  lemma ExampleNicePart1()
    ensures IsNice("aaa", Part1Rules)
  {
    assert DoubleAt("aaa", 0);
    forall k | 0 <= k < 4
      ensures !Contains("aaa", Part1Rules[2].patterns[k])
    {
      var pat := Part1Rules[2].patterns[k];
      assert pat[0] != 'a' || pat[1] != 'a';
      forall i | 0 <= i <= 3 ensures !OccursAt("aaa", pat, i) {
        if i + 2 <= 3 {
          assert "aaa"[i..i + 2] == "aa";
        }
      }
    }
  }

  lemma ExampleForbidden()
    ensures !IsNice("haegwjzuvuyypxyu", Part1Rules)
  {
    var s := "haegwjzuvuyypxyu";
    assert s[13..15] == "xy";
    assert OccursAt(s, Part1Rules[2].patterns[3], 13);
    assert !Holds(Part1Rules[2], s);
  }

  /** ... and in part 2 a string with a repeated pair and a letter that
      repeats with one letter between is nice. */
  lemma ExampleNicePart2()
    ensures IsNice("xxyxx", Part2Rules)
  {
    var t := "xxyxx";
    assert t[2..3] == "y";
    assert PairAt(t, 0, 3);
    assert SandwichAt(t, 1);
    assert Holds(Part2Rules[0], t) && Holds(Part2Rules[1], t);
  }

  /** `solve_part_1` and `solve_part_2`: the nice lines of the input. */
  function SolvePart1(input: string): (n: nat)
    ensures n <= |Lines(input)|
  {
    CountNice(Lines(input), Part1Rules)
  }

  function SolvePart2(input: string): (n: nat)
    ensures n <= |Lines(input)|
  {
    CountNice(Lines(input), Part2Rules)
  }
}
