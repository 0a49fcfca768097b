/** Two location lists compared pairwise after sorting, and their
    similarity score (src/days/day01.rs). */
module LocationLists {
  import opened Wrappers
  import opened Text

  predicate Sorted(s: seq<nat>) {
    forall i, j :: 0 <= i < j < |s| ==> s[i] <= s[j]
  }

  /** `x` put into a sorted list in front of the first larger element. */
  function Insert(x: nat, s: seq<nat>): (r: seq<nat>)
    requires Sorted(s)
    ensures Sorted(r) && multiset(r) == multiset(s) + multiset{x}
  {
    if s == [] || x <= s[0] then [x] + s
    else
      var rest := Insert(x, s[1..]);
      assert s == [s[0]] + s[1..];
      InsertAbove(s[0], x, s[1..], rest);
      [s[0]] + rest
  }

  /** Every element of `rest`, a rearrangement of `s` plus `x`, is at
      least a bound of both. */
  lemma InsertAbove(lo: nat, x: nat, s: seq<nat>, rest: seq<nat>)
    requires lo <= x && forall k :: 0 <= k < |s| ==> lo <= s[k]
    requires multiset(rest) == multiset(s) + multiset{x}
    ensures forall k :: 0 <= k < |rest| ==> lo <= rest[k]
  {
    forall k | 0 <= k < |rest|
      ensures lo <= rest[k]
    {
      assert rest[k] in multiset(rest);
      if rest[k] != x {
        assert rest[k] in multiset(s);
      }
    }
  }

  /** `Vec::sort`: the same elements in ascending order. */
  function Sort(s: seq<nat>): (r: seq<nat>)
    ensures Sorted(r) && multiset(r) == multiset(s)
  {
    if s == [] then []
    else
      assert s == [s[0]] + s[1..];
      Insert(s[0], Sort(s[1..]))
  }

  /** A sorted list is determined by its elements: two sorted
      rearrangements of the same multiset are equal. */
  lemma {:induction false} SortedUnique(a: seq<nat>, b: seq<nat>)
    requires Sorted(a) && Sorted(b) && multiset(a) == multiset(b)
    ensures a == b
  {
    if a != [] {
      assert |b| == |a| by {
        assert |multiset(a)| == |a| && |multiset(b)| == |b|;
      }
      assert a[0] == b[0] by {
        assert a[0] in multiset(b) && b[0] in multiset(a);
        var i :| 0 <= i < |b| && b[i] == a[0];
        var j :| 0 <= j < |a| && a[j] == b[0];
        assert b[0] <= b[i] && a[0] <= a[j];
      }
      DropSameFirst(a, b);
      SortedUnique(a[1..], b[1..]);
    }
  }

  lemma DropSameFirst(a: seq<nat>, b: seq<nat>)
    requires a != [] && b != [] && a[0] == b[0] && multiset(a) == multiset(b)
    ensures multiset(a[1..]) == multiset(b[1..])
  {
    assert a == [a[0]] + a[1..];
    assert b == [b[0]] + b[1..];
    calc {
      multiset(a[1..]);
      multiset(a) - multiset{a[0]};
      multiset(b) - multiset{b[0]};
      multiset(b[1..]);
    }
  }

  /** Removing an occurrence of `a[0]` from a rearrangement of `a` leaves a
      rearrangement of the rest of `a`. */
  lemma RemoveMatching(a': seq<nat>, i: nat, a: seq<nat>)
    requires i < |a'| && a != [] && a'[i] == a[0] && multiset(a) == multiset(a')
    ensures multiset(a'[..i] + a'[i + 1..]) == multiset(a[1..])
  {
    assert a' == a'[..i] + [a[0]] + a'[i + 1..];
    assert a == [a[0]] + a[1..];
    calc {
      multiset(a'[..i] + a'[i + 1..]);
      multiset(a'[..i]) + multiset(a'[i + 1..]);
      multiset(a') - multiset{a[0]};
      multiset(a) - multiset{a[0]};
      multiset(a[1..]);
    }
  }

  /** `a.abs_diff(b)`. */
  function AbsDiff(a: nat, b: nat): nat {
    if a < b then b - a else a - b
  }

  /** `zip(a, b).map(abs_diff).sum()`: pairs up to the shorter list. */
  function Distance(a: seq<nat>, b: seq<nat>): nat {
    if a == [] || b == [] then 0 else AbsDiff(a[0], b[0]) + Distance(a[1..], b[1..])
  }

  /** Part 1: sort both lists and add up the pairwise distances. */
  function TotalDistance(a: seq<nat>, b: seq<nat>): nat {
    Distance(Sort(a), Sort(b))
  }

  /** The order of the input lines does not matter to part 1: only the
      multisets of the two lists do. */
  lemma TotalDistanceOrderFree(a: seq<nat>, b: seq<nat>, a': seq<nat>, b': seq<nat>)
    requires multiset(a) == multiset(a') && multiset(b) == multiset(b')
    ensures TotalDistance(a, b) == TotalDistance(a', b')
  {
    SortedUnique(Sort(a), Sort(a'));
    SortedUnique(Sort(b), Sort(b'));
  }

  lemma {:induction false} DistanceSelf(a: seq<nat>)
    ensures Distance(a, a) == 0
  {
    if a != [] {
      DistanceSelf(a[1..]);
    }
  }

  lemma {:induction false} DistanceSymmetric(a: seq<nat>, b: seq<nat>)
    ensures Distance(a, b) == Distance(b, a)
  {
    if a != [] && b != [] {
      DistanceSymmetric(a[1..], b[1..]);
    }
  }

  /** Two lists holding the same numbers in any order are at distance 0. */
  lemma SameNumbersNoDistance(a: seq<nat>, b: seq<nat>)
    requires multiset(a) == multiset(b)
    ensures TotalDistance(a, b) == 0
  {
    SortedUnique(Sort(a), Sort(b));
    DistanceSelf(Sort(a));
  }

  /** `list_b.iter().filter(|&&b| b == a).count()`. */
  function Occurrences(s: seq<nat>, x: nat): (n: nat)
    ensures n == multiset(s)[x]
  {
    if s == [] then 0
    else
      assert s == [s[0]] + s[1..];
      (if s[0] == x then 1 else 0) + Occurrences(s[1..], x)
  }

  /** Part 2: `Σ a × (occurrences of a in list_b)` over list_a. */
  function Similarity(a: seq<nat>, b: seq<nat>): nat {
    if a == [] then 0 else a[0] * Occurrences(b, a[0]) + Similarity(a[1..], b)
  }

  lemma {:induction false} SimilarityAppend(u: seq<nat>, v: seq<nat>, b: seq<nat>)
    ensures Similarity(u + v, b) == Similarity(u, b) + Similarity(v, b)
  {
    if u == [] {
      assert u + v == v;
    } else {
      assert (u + v)[1..] == u[1..] + v;
      SimilarityAppend(u[1..], v, b);
    }
  }

  /** Part 2 depends only on the multisets of the two lists. */
  lemma {:induction false} SimilarityOrderFree(a: seq<nat>, a': seq<nat>, b: seq<nat>, b': seq<nat>)
    requires multiset(a) == multiset(a') && multiset(b) == multiset(b')
    ensures Similarity(a, b) == Similarity(a', b')
    decreases |a|
  {
    if a == [] {
      assert |multiset(a')| == 0;
      SimilarityOtherList(a', b, b');
    } else {
      var x := a[0];
      assert a == [x] + a[1..];
      assert x in multiset(a');
      var i :| 0 <= i < |a'| && a'[i] == x;
      var rest := a'[..i] + a'[i + 1..];
      assert a' == a'[..i] + [x] + a'[i + 1..];
      RemoveMatching(a', i, a);
      SimilarityOrderFree(a[1..], rest, b, b');
      SimilarityAppend(a'[..i] + [x], a'[i + 1..], b');
      SimilarityAppend(a'[..i], [x], b');
      SimilarityAppend(a'[..i], a'[i + 1..], b');
    }
  }

  lemma {:induction false} SimilarityOtherList(a: seq<nat>, b: seq<nat>, b': seq<nat>)
    requires multiset(b) == multiset(b')
    ensures Similarity(a, b) == Similarity(a, b')
  {
    if a != [] {
      SimilarityOtherList(a[1..], b, b');
    }
  }

  /** `get_lists`: the trimmed input split on "\n"; each line split at its
      first whitespace character, the left part parsed as it is and the
      right part trimmed first. Any failure panics. */
  function GetLists(input: string): (r: Option<(seq<nat>, seq<nat>)>)
    ensures r.Some? ==> |r.value.0| == |r.value.1| == |Split(Trim(input), '\n')|
  {
    ParsePairs(Split(Trim(input), '\n'))
  }

  function ParsePair(line: string): Option<(nat, nat)> {
    match SplitOnceWhitespace(line)
    case None => None
    case Some((a, b)) =>
      match (ParseNat(a), ParseNat(Trim(b)))
      case (Some(x), Some(y)) => Some((x, y))
      case _ => None
  }

  function ParsePairs(lines: seq<string>): (r: Option<(seq<nat>, seq<nat>)>)
    ensures r.Some? ==> (|r.value.0| == |r.value.1| == |lines|
      && forall k :: 0 <= k < |lines| ==> ParsePair(lines[k]) == Some((r.value.0[k], r.value.1[k])))
  {
    if lines == [] then Some(([], []))
    else match (ParsePair(lines[0]), ParsePairs(lines[1..]))
      case (Some((x, y)), Some((xs, ys))) => Some(([x] + xs, [y] + ys))
      case _ => None
  }

  /** Part 1: the total distance between the two lists, each sorted; a
      line that is not two numbers panics. */
  function SolvePart1(input: string): (r: Option<nat>)
    ensures r.Some? <==> GetLists(input).Some?
    ensures r.Some? ==> r.value == TotalDistance(GetLists(input).value.0, GetLists(input).value.1)
  {
    match GetLists(input)
    case None => None
    case Some((a, b)) => Some(TotalDistance(a, b))
  }

  /** Part 2: the similarity score of the two lists. */
  function SolvePart2(input: string): (r: Option<nat>)
    ensures r.Some? <==> GetLists(input).Some?
    ensures r.Some? ==> r.value == Similarity(GetLists(input).value.0, GetLists(input).value.1)
  {
    match GetLists(input)
    case None => None
    case Some((a, b)) => Some(Similarity(a, b))
  }

  /** A sorted list is its own sort. */
  lemma SortOfSorted(a: seq<nat>)
    requires Sorted(a)
    ensures Sort(a) == a
  {
    SortedUnique(Sort(a), a);
  }

  /** The worked example, once sorted: [1, 2, 3, 3, 3, 4] against
      [3, 3, 3, 4, 5, 9] are at distance 11. */
  lemma ExampleDistance()
    ensures Distance([1, 2, 3, 3, 3, 4], [3, 3, 3, 4, 5, 9]) == 11
  {
    assert Distance([3, 4], [5, 9]) == 7;
  }

  lemma ExampleOccurrencesThree()
    ensures Occurrences([4, 3, 5, 3, 9, 3], 3) == 3
  {
    assert Occurrences([9, 3], 3) == 1;
  }

  lemma ExampleOccurrencesFour()
    ensures Occurrences([4, 3, 5, 3, 9, 3], 4) == 1
  {
    assert Occurrences([9, 3], 4) == 0;
  }

  lemma ExampleOccurrencesAbsent(x: nat)
    requires x < 3
    ensures Occurrences([4, 3, 5, 3, 9, 3], x) == 0
  {
    assert Occurrences([9, 3], x) == 0;
  }

  /** The worked example has similarity 31. */
  lemma ExampleSimilarity()
    ensures Similarity([3, 4, 2, 1, 3, 3], [4, 3, 5, 3, 9, 3]) == 31
  {
    ExampleOccurrencesThree();
    ExampleOccurrencesFour();
    ExampleOccurrencesAbsent(2);
    ExampleOccurrencesAbsent(1);
    var b := [4, 3, 5, 3, 9, 3];
    assert Similarity([3], b) == 9;
    assert Similarity([3, 3], b) == 18;
    assert Similarity([1, 3, 3], b) == 18;
    assert Similarity([2, 1, 3, 3], b) == 18;
    assert Similarity([4, 2, 1, 3, 3], b) == 22;
  }
}
