/** Floor counting over a string of brackets (src/years/y2015/day01.rs).
    '(' moves one floor up and every other character one floor down. */
module Floors {

  /** The change of floor for one character. */
  function Step(c: char): int {
    if c == '(' then 1 else -1
  }

  /** The floor reached after following every character of `s`,
      starting from floor 0 (the fold of `solve_part_1`). */
  function Floor(s: string): int {
    if s == [] then 0 else Floor(s[..|s| - 1]) + Step(s[|s| - 1])
  }

  /** Part 1 is the number of '(' minus the number of all other
      characters. */
  lemma {:induction false} FloorCountsBrackets(s: string)
    ensures Floor(s) == multiset(s)['('] - (|s| - multiset(s)['('])
  {
    if s != [] {
      var init := s[..|s| - 1];
      FloorCountsBrackets(init);
      assert s == init + [s[|s| - 1]];
      assert multiset(s) == multiset(init) + multiset{s[|s| - 1]};
    }
  }

  /** The floor right after the character at index `k`. */
  function FloorAfter(s: string, k: nat): int
    requires k < |s|
  {
    Floor(s[..k + 1])
  }

  /** One more character moves the floor by exactly one. */
  lemma FloorStep(s: string, k: nat)
    requires k < |s|
    ensures FloorAfter(s, k) == Floor(s[..k]) + Step(s[k])
  {
    assert s[..k + 1][..k] == s[..k];
  }

  /** Part 2 (`solve_part_2`): the 0-based index of the first character
      after which the floor is below 0, or 0 when that never happens. */
  method FirstBasement(s: string) returns (i: nat)
    ensures (exists k :: 0 <= k < |s| && FloorAfter(s, k) < 0) ==>
      (i < |s| && FloorAfter(s, i) == -1
      && forall j :: 0 <= j < i ==> FloorAfter(s, j) >= 0)
    ensures (forall k :: 0 <= k < |s| ==> FloorAfter(s, k) >= 0) ==> i == 0
  {
    var floor := 0;
    var k := 0;
    while k < |s|
      invariant 0 <= k <= |s|
      invariant floor == Floor(s[..k]) && floor >= 0
      invariant forall j :: 0 <= j < k ==> FloorAfter(s, j) >= 0
    {
      FloorStep(s, k);
      floor := floor + Step(s[k]);
      if floor < 0 {
        return k;
      }
      k := k + 1;
    }
    assert s[..k] == s;
    return 0;
  }

  /** The reference reading of part 2: the least index whose prefix
      ends below floor 0. */
  lemma FirstBasementIsLeast(s: string, i: nat, j: nat)
    requires i < |s| && FloorAfter(s, i) < 0
    requires forall k :: 0 <= k < i ==> FloorAfter(s, k) >= 0
    requires j < |s| && FloorAfter(s, j) < 0
    ensures i <= j
  {
  }
}
