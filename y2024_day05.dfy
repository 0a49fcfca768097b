/** Print queue: page-ordering rules, the updates that follow them, and the
    reordering of the ones that do not (src/years/y2024/day05.rs). */
module PageOrdering {
  import opened Wrappers
  import opened Text

  /** A page number, a `u8` in the source. */
  type Page = nat

  /** `rules[b]` holds every page `a` of a rule "a|b": the pages that must
      not come after `b`. */
  type Rules = map<Page, set<Page>>

  /** What `from_str` guarantees: a key is only added with a page in its set. */
  predicate WellFormed(rules: Rules) {
    forall b :: b in rules ==> rules[b] != {}
  }

  /** One step of the fold in `from_str`: the rule a|b adds a to `rules[b]`. */
  function AddRule(rules: Rules, rule: (Page, Page)): Rules {
    var (a, b) := rule;
    rules[b := (if b in rules then rules[b] else {}) + {a}]
  }

  /** The fold over the parsed rules. */
  function BuildRules(rs: seq<(Page, Page)>): Rules {
    if rs == [] then map[]
    else AddRule(BuildRules(rs[..|rs| - 1]), rs[|rs| - 1])
  }

  /** The rule map holds exactly the parsed rules, and every set in it is
      non-empty. */
  lemma {:induction false} BuildRulesMeaning(rs: seq<(Page, Page)>)
    ensures WellFormed(BuildRules(rs))
    ensures forall b :: b in BuildRules(rs) <==> exists k :: 0 <= k < |rs| && rs[k].1 == b
    ensures forall a, b :: b in BuildRules(rs) && a in BuildRules(rs)[b] <==> (a, b) in rs
  {
    if rs != [] {
      var init := rs[..|rs| - 1];
      BuildRulesMeaning(init);
      assert forall k :: 0 <= k < |init| ==> init[k] == rs[k];
      assert forall p :: p in rs <==> p in init || p == rs[|rs| - 1] by {
        assert rs == init + [rs[|rs| - 1]];
      }
    }
  }

  /** `is_valid`'s view of an update: no page is followed by a page that
      must come before it. */
  predicate Valid(update: seq<Page>, rules: Rules) {
    forall i, j :: 0 <= i < j < |update| && update[i] in rules ==> update[j] !in rules[update[i]]
  }

  /** `rules.iter().any(|rule| update[i + 1..].contains(rule))`. */
  predicate AnyAfter(before: set<Page>, rest: seq<Page>) {
    exists r :: r in before && r in rest
  }

  /** `is_valid`: the loop over the update, returning early on a violation. */
  method IsValid(update: seq<Page>, rules: Rules) returns (b: bool)
    ensures b <==> Valid(update, rules)
  {
    for i := 0 to |update|
      invariant forall i', j :: 0 <= i' < i && i' < j < |update| && update[i'] in rules ==> update[j] !in rules[update[i']]
    {
      var val := update[i];
      if val !in rules {
        continue;
      }
      if AnyAfter(rules[val], update[i + 1..]) {
        var r :| r in rules[val] && r in update[i + 1..];
        var j :| 0 <= j < |update[i + 1..]| && update[i + 1..][j] == r;
        assert update[i + 1 + j] in rules[update[i]];
        return false;
      }
      assert forall j :: i < j < |update| ==> update[j] == update[i + 1..][j - i - 1];
    }
    return true;
  }

  /** `result.iter().position(|&x| x == page)`: the first index of `page`. */
  function Position(s: seq<Page>, page: Page): (r: Option<nat>)
    ensures r.None? <==> page !in s
    ensures r.Some? ==> r.value < |s| && s[r.value] == page && page !in s[..r.value]
  {
    if s == [] then None
    else if s[0] == page then Some(0)
    else
      match Position(s[1..], page)
      case None => None
      case Some(i) =>
        assert s[..i + 1] == [s[0]] + s[1..][..i];
        Some(i + 1)
  }

  /** The index just after `page` in `result`, or 0 when it is not placed. */
  function IndexAfter(result: seq<Page>, page: Page): (i: nat)
    ensures i <= |result|
    ensures i == 0 <==> page !in result
  {
    match Position(result, page)
    case None => 0
    case Some(k) => k + 1
  }

  /** `m` is the maximum of `IndexAfter(result, r)` over the pages `r` of `before`. */
  predicate IsMaxIndex(result: seq<Page>, before: set<Page>, m: nat) {
    (forall r :: r in before ==> IndexAfter(result, r) <= m)
    && exists r :: r in before && IndexAfter(result, r) == m
  }

  lemma MaxIndexUnique(result: seq<Page>, before: set<Page>, m: nat, m': nat)
    requires IsMaxIndex(result, before, m) && IsMaxIndex(result, before, m')
    ensures m == m'
  {
  }

  /** The `.max().unwrap()` of `make_valid` (the set is never empty there). */
  ghost function MaxIndex(result: seq<Page>, before: set<Page>): (m: nat)
    requires before != {}
    ensures IsMaxIndex(result, before, m)
    ensures m <= |result|
    decreases before
  {
    var r :| r in before;
    if before == {r} then IndexAfter(result, r)
    else
      var m' := MaxIndex(result, before - {r});
      if IndexAfter(result, r) > m' then IndexAfter(result, r) else m'
  }

  /** `result.insert(index, page)`. */
  function Insert(s: seq<Page>, index: nat, page: Page): (r: seq<Page>)
    requires index <= |s|
    ensures |r| == |s| + 1 && r[index] == page
    ensures multiset(r) == multiset(s) + multiset{page}
  {
    assert s == s[..index] + s[index..];
    s[..index] + [page] + s[index..]
  }

  /** `make_valid`, one page at a time: a page without rules goes to the
      front, any other right after the last of its rule pages already
      placed (or to the front when none is). */
  ghost function MakeValid(update: seq<Page>, rules: Rules): (r: seq<Page>)
    requires WellFormed(rules)
    ensures multiset(r) == multiset(update)
  {
    if update == [] then []
    else
      var init := update[..|update| - 1];
      var page := update[|update| - 1];
      assert update == init + [page];
      var placed := MakeValid(init, rules);
      if page !in rules then [page] + placed
      else Insert(placed, MaxIndex(placed, rules[page]), page)
  }

  /** The loop over the rule pages that takes the largest insertion index. */
  method MaxInsertIndex(result: seq<Page>, before: set<Page>) returns (m: nat)
    requires before != {}
    ensures m == MaxIndex(result, before)
  {
    m := 0;
    var rest := before;
    while rest != {}
      invariant rest <= before
      invariant forall r :: r in before - rest ==> IndexAfter(result, r) <= m
      invariant (before - rest == {} && m == 0) || exists r :: r in before - rest && IndexAfter(result, r) == m
      decreases rest
    {
      var r :| r in rest;
      var index := IndexAfter(result, r);
      if index > m || before - rest == {} {
        m := index;
      }
      rest := rest - {r};
    }
    MaxIndexUnique(result, before, m, MaxIndex(result, before));
  }

  /** `make_valid` with its `result` vector. */
  method MakeValidMethod(update: seq<Page>, rules: Rules) returns (result: seq<Page>)
    requires WellFormed(rules)
    ensures result == MakeValid(update, rules)
  {
    result := [];
    for k := 0 to |update|
      invariant result == MakeValid(update[..k], rules)
    {
      MakeValidStep(update, rules, k);
      var page := update[k];
      if page !in rules {
        result := [page] + result;
        continue;
      }
      var index := MaxInsertIndex(result, rules[page]);
      result := Insert(result, index, page);
    }
    assert update[..|update|] == update;
  }

  lemma MakeValidStep(update: seq<Page>, rules: Rules, k: nat)
    requires WellFormed(rules) && k < |update|
    ensures var placed := MakeValid(update[..k], rules);
      MakeValid(update[..k + 1], rules)
        == if update[k] !in rules then [update[k]] + placed
           else Insert(placed, MaxIndex(placed, rules[update[k]]), update[k])
  {
    assert update[..k + 1][..k] == update[..k];
  }

  /** The page just inserted lands after every one of its rule pages that
      was already placed. */
  lemma InsertedAfterRulePages(placed: seq<Page>, rules: Rules, page: Page)
    requires WellFormed(rules) && page in rules
    ensures var r := Insert(placed, MaxIndex(placed, rules[page]), page);
      forall q :: q in rules[page] && q in placed ==>
        Position(r, q).Some? && Position(r, q).value < MaxIndex(placed, rules[page])
  {
    var m := MaxIndex(placed, rules[page]);
    var r := Insert(placed, m, page);
    forall q | q in rules[page] && q in placed
      ensures Position(r, q).Some? && Position(r, q).value < m
    {
      var k := Position(placed, q).value;
      assert IndexAfter(placed, q) == k + 1 <= m;
      assert r[..k] == placed[..k];
      assert r[k] == q;
      PositionAt(r, q, k);
    }
  }

  lemma PositionAt(s: seq<Page>, page: Page, k: nat)
    requires k < |s| && s[k] == page && page !in s[..k]
    ensures Position(s, page) == Some(k)
  {
  }

  /** `mid`: the middle page; it indexes out of range on an empty update. */
  function Mid(update: seq<Page>): (m: Page)
    requires |update| > 0
    ensures m in update
  {
    update[|update| / 2]
  }

  /** `valid_updates`: the updates that are valid, in their original order. */
  function ValidUpdates(updates: seq<seq<Page>>, rules: Rules): (r: seq<seq<Page>>)
    ensures |r| <= |updates|
    ensures forall k :: 0 <= k < |r| ==> Valid(r[k], rules) && r[k] in updates
  {
    if updates == [] then []
    else
      var rest := ValidUpdates(updates[1..], rules);
      if Valid(updates[0], rules) then [updates[0]] + rest else rest
  }

  /** `invalid_updates`: the others, in their original order. */
  function InvalidUpdates(updates: seq<seq<Page>>, rules: Rules): (r: seq<seq<Page>>)
    ensures |r| <= |updates|
    ensures forall k :: 0 <= k < |r| ==> !Valid(r[k], rules) && r[k] in updates
    ensures NonEmpty(updates) ==> NonEmpty(r)
  {
    if updates == [] then []
    else
      var rest := InvalidUpdates(updates[1..], rules);
      if !Valid(updates[0], rules) then [updates[0]] + rest else rest
  }

  /** The two filters split the updates: every update lands in exactly one. */
  lemma {:induction false} FiltersPartition(updates: seq<seq<Page>>, rules: Rules)
    ensures |ValidUpdates(updates, rules)| + |InvalidUpdates(updates, rules)| == |updates|
    ensures multiset(ValidUpdates(updates, rules)) + multiset(InvalidUpdates(updates, rules))
      == multiset(updates)
  {
    if updates != [] {
      FiltersPartition(updates[1..], rules);
      assert updates == [updates[0]] + updates[1..];
    }
  }

  predicate NonEmpty(updates: seq<seq<Page>>) {
    forall k :: 0 <= k < |updates| ==> |updates[k]| > 0
  }

  /** `fold(0, |sum, update| sum + update.mid())`. */
  function SumOfMids(updates: seq<seq<Page>>): nat
    requires NonEmpty(updates)
  {
    if updates == [] then 0 else Mid(updates[0]) + SumOfMids(updates[1..])
  }

  /** The parsed input: the rule map and the updates. */
  datatype Model = Model(rules: Rules, updates: seq<seq<Page>>)

  /** One rule line "a|b" with two `u8`s. */
  function ParseRule(line: string): Option<(Page, Page)> {
    match SplitOnce(line, '|')
    case None => None
    case Some((a, b)) =>
      match (ParseBounded(a, 256), ParseBounded(b, 256))
      case (Some(x), Some(y)) => Some((x, y))
      case _ => None
  }

  function ParseRules(lines: seq<string>): (r: Option<seq<(Page, Page)>>)
    ensures r.Some? ==> |r.value| == |lines|
  {
    if lines == [] then Some([])
    else match (ParseRule(lines[0]), ParseRules(lines[1..]))
      case (Some(x), Some(xs)) => Some([x] + xs)
      case _ => None
  }

  /** One update line: pages separated by ','. */
  function ParsePages(pieces: seq<string>): (r: Option<seq<Page>>)
    ensures r.Some? ==> |r.value| == |pieces|
  {
    if pieces == [] then Some([])
    else match (ParseBounded(pieces[0], 256), ParsePages(pieces[1..]))
      case (Some(x), Some(xs)) => Some([x] + xs)
      case _ => None
  }

  function ParseUpdates(lines: seq<string>): (r: Option<seq<seq<Page>>>)
    ensures r.Some? ==> |r.value| == |lines| && NonEmpty(r.value)
  {
    if lines == [] then Some([])
    else match (ParsePages(Split(lines[0], ',')), ParseUpdates(lines[1..]))
      case (Some(x), Some(xs)) => Some([x] + xs)
      case _ => None
  }

  /** `Model::from_str`: rules and updates separated by a blank line; any
      malformed part panics. Every parsed update has at least one page. */
  function ParseModel(input: string): (r: Option<Model>)
    ensures r.Some? ==> WellFormed(r.value.rules) && NonEmpty(r.value.updates)
  {
    match SplitOnceStr(input, "\n\n")
    case None => None
    case Some((rulesText, updatesText)) =>
      match (ParseRules(Split(rulesText, '\n')), ParseUpdates(Split(updatesText, '\n')))
      case (Some(rs), Some(us)) =>
        BuildRulesMeaning(rs);
        Some(Model(BuildRules(rs), us))
      case _ => None
  }

  /** Part 1: the sum of the middle pages of the updates already in order. */
  function SolvePart1(input: string): (r: Option<nat>)
    ensures r.Some? <==> ParseModel(input).Some?
    ensures r.Some? ==>
      r.value == SumOfMids(ValidUpdates(ParseModel(input).value.updates, ParseModel(input).value.rules))
  {
    match ParseModel(input)
    case None => None
    case Some(model) => Some(SumOfMids(ValidUpdates(model.updates, model.rules)))
  }

  /** The reordered invalid updates; reordering keeps each non-empty. */
  ghost function Reordered(updates: seq<seq<Page>>, rules: Rules): (r: seq<seq<Page>>)
    requires WellFormed(rules) && NonEmpty(updates)
    ensures |r| == |updates| && NonEmpty(r)
    ensures forall k :: 0 <= k < |r| ==> multiset(r[k]) == multiset(updates[k])
  {
    var r := seq(|updates|, k requires 0 <= k < |updates| => MakeValid(updates[k], rules));
    assert forall k :: 0 <= k < |r| ==> |multiset(r[k])| == |r[k]|;
    r
  }

  lemma NonEmptySuffix(updates: seq<seq<Page>>, k: nat)
    requires NonEmpty(updates) && k <= |updates|
    ensures NonEmpty(updates[k..])
  {
  }

  lemma SumOfMidsCons(updates: seq<seq<Page>>, k: nat)
    requires NonEmpty(updates) && k < |updates|
    ensures NonEmpty(updates[k..]) && NonEmpty(updates[k + 1..])
    ensures SumOfMids(updates[k..]) == Mid(updates[k]) + SumOfMids(updates[k + 1..])
  {
    assert updates[k..][1..] == updates[k + 1..];
  }

  /** `solve_part_2`: every invalid update reordered, then the sum of
      their middle pages. */
  method SolvePart2(input: string) returns (r: Option<nat>)
    ensures r.None? <==> ParseModel(input).None?
    ensures r.Some? ==> var model := ParseModel(input).value;
      r.value == SumOfMids(Reordered(InvalidUpdates(model.updates, model.rules), model.rules))
  {
    var parsed := ParseModel(input);
    if parsed.None? {
      return None;
    }
    var model := parsed.value;
    var sum := SumReordered(InvalidUpdates(model.updates, model.rules), model.rules);
    return Some(sum);
  }

  /** The `map(make_valid)` and the fold over the middle pages. */
  method SumReordered(updates: seq<seq<Page>>, rules: Rules) returns (sum: nat)
    requires WellFormed(rules) && NonEmpty(updates)
    ensures sum == SumOfMids(Reordered(updates, rules))
  {
    ghost var fixed := Reordered(updates, rules);
    sum := 0;
    var k := |updates|;
    NonEmptySuffix(fixed, k);
    while k > 0
      invariant 0 <= k <= |updates| && NonEmpty(fixed[k..])
      invariant sum == SumOfMids(fixed[k..])
    {
      k := k - 1;
      var update := MakeValidMethod(updates[k], rules);
      SumOfMidsCons(fixed, k);
      sum := sum + Mid(update);
    }
  }
}
