/** Plutonian pebbles (src/years/y2024/day11.rs). The stones are kept as
    a count per engraved number; every blink replaces each stone by one or
    two new ones, and the answer is how many stones there are after a
    given number of blinks. */
module Stones {
  import opened Wrappers
  import opened Text
  import opened SetSums

  /** How many stones carry each number (`HashMap<Stone, usize>`). */
  type Counts = map<nat, nat>

  // ---------------------------------------------------------------
  // Decimal digits

  function Pow10(k: nat): (r: nat)
    ensures r >= 1
  {
    if k == 0 then 1 else 10 * Pow10(k - 1)
  }

  lemma {:induction false} Pow10Add(i: nat, j: nat)
    ensures Pow10(i + j) == Pow10(i) * Pow10(j)
    decreases i
  {
    if i > 0 {
      Pow10Add(i - 1, j);
      assert Pow10(i + j) == 10 * (Pow10(i - 1) * Pow10(j));
      MulAssoc(10, Pow10(i - 1), Pow10(j));
    }
  }

  lemma MulAssoc(a: nat, b: nat, c: nat)
    ensures a * (b * c) == (a * b) * c
  {
  }

  /** The number of decimal digits of `v`. */
  function Digits(v: nat): (n: nat)
    ensures n >= 1
  {
    if v < 10 then 1 else 1 + Digits(v / 10)
  }

  lemma DivTen(v: nat, p: nat)
    ensures p <= v / 10 <==> 10 * p <= v
    ensures v / 10 < p <==> v < 10 * p
  {
  }

  /** A positive number has `n` digits exactly when it lies in
      [10^(n-1), 10^n). */
  lemma {:induction false} DigitsRange(v: nat, n: nat)
    requires v > 0 && n >= 1
    ensures Digits(v) == n <==> Pow10(n - 1) <= v < Pow10(n)
    decreases n
  {
    if n == 1 {
      assert Pow10(1) == 10;
    } else {
      assert Pow10(n) == 10 * Pow10(n - 1);
      assert Pow10(n - 1) == 10 * Pow10(n - 2);
      if v >= 10 {
        DigitsRange(v / 10, n - 1);
        DivTen(v, Pow10(n - 2));
        DivTen(v, Pow10(n - 1));
      }
    }
  }

  /** `v.ilog10()`: the largest `e` with 10^e <= v; it panics on 0. */
  function ILog10(v: nat): (e: nat)
    requires v > 0
    ensures Pow10(e) <= v < Pow10(e + 1)
  {
    DigitsRange(v, Digits(v));
    Digits(v) - 1
  }

  lemma DivBounds(v: nat, d: nat, lo: nat, hi: nat)
    requires d > 0 && lo * d <= v < hi * d
    ensures lo <= v / d < hi
  {
    var q, r := v / d, v % d;
    assert v == q * d + r && r < d;
    if q < lo {
      MulMono(q + 1, lo, d);
    }
    if q >= hi {
      MulMono(hi, q, d);
    }
  }

  lemma MulMono(a: nat, b: nat, d: nat)
    requires a <= b
    ensures a * d <= b * d
  {
  }

  lemma DivModUnique(v: nat, d: nat, q: nat, r: nat)
    requires d > 0 && v == q * d + r && r < d
    ensures v / d == q && v % d == r
  {
    var q', r' := v / d, v % d;
    assert v == q' * d + r';
    if q' < q {
      MulMono(q' + 1, q, d);
    } else if q < q' {
      MulMono(q + 1, q', d);
    }
  }

  /** `split`: the number written by the first half of the digits of `v`
      and the number written by the second half, `v / div` and `v % div`
      for `div` = 10^((ilog10 + 1) / 2) (see `SplitIsDivMod`). */
  function Split(v: nat): (nat, nat)
    requires v > 0
  {
    var k := (ILog10(v) + 1) / 2;
    (DropDigits(v, k), KeepDigits(v, k))
  }

  /** `v` without its last `k` digits. */
  function DropDigits(v: nat, k: nat): nat {
    if k == 0 then v else DropDigits(v / 10, k - 1)
  }

  /** The number written by the last `k` digits of `v`. */
  function KeepDigits(v: nat, k: nat): nat {
    if k == 0 then 0 else 10 * KeepDigits(v / 10, k - 1) + v % 10
  }

  /** Dropping and keeping `k` digits is dividing by 10^k. */
  lemma {:induction false} DropKeepDivMod(v: nat, k: nat)
    ensures DropDigits(v, k) == v / Pow10(k) && KeepDigits(v, k) == v % Pow10(k)
  {
    if k > 0 {
      DropKeepDivMod(v / 10, k - 1);
      var p := Pow10(k - 1);
      var q, r := (v / 10) / p, (v / 10) % p;
      DivMod(v / 10, p);
      assert v / 10 == q * p + r;
      ShiftDigit(v, q, p, r);
      DivModUnique(v, Pow10(k), q, 10 * r + v % 10);
    }
  }

  lemma ShiftDigit(v: nat, q: nat, p: nat, r: nat)
    requires v / 10 == q * p + r && r < p
    ensures v == q * (10 * p) + (10 * r + v % 10) && 10 * r + v % 10 < 10 * p
  {
    MulAssoc(q, 10, p);
    assert q * 10 == 10 * q;
    MulAssoc(10, q, p);
  }

  /** `split` as the source writes it. */
  lemma SplitIsDivMod(v: nat)
    requires v > 0
    ensures Split(v) == (v / Pow10((ILog10(v) + 1) / 2), v % Pow10((ILog10(v) + 1) / 2))
  {
    DropKeepDivMod(v, (ILog10(v) + 1) / 2);
  }

  /** For a number of `2k` digits, the two halves put side by side give it
      back, and the first half has `k` digits of its own. */
  lemma SplitHalves(v: nat, k: nat)
    requires v > 0 && k >= 1 && Digits(v) == 2 * k
    ensures Split(v).0 * Pow10(k) + Split(v).1 == v && Split(v).1 < Pow10(k)
    ensures Split(v).0 > 0 && Digits(Split(v).0) == k
  {
    SplitAt(v, k);
    EvenRange(v, k);
    DivBounds(v, Pow10(k), Pow10(k - 1), Pow10(k));
    DigitsRange(v / Pow10(k), k);
    DivMod(v, Pow10(k));
  }

  lemma SplitAt(v: nat, k: nat)
    requires v > 0 && k >= 1 && Digits(v) == 2 * k
    ensures Split(v) == (v / Pow10(k), v % Pow10(k))
  {
    assert (ILog10(v) + 1) / 2 == k;
    SplitIsDivMod(v);
  }

  /** The bounds of a number of `2k` digits, in powers of 10^k. */
  lemma EvenRange(v: nat, k: nat)
    requires v > 0 && k >= 1
    ensures Digits(v) == 2 * k <==> Pow10(k - 1) * Pow10(k) <= v < Pow10(k) * Pow10(k)
  {
    DigitsRange(v, 2 * k);
    Pow10Add(k - 1, k);
    Pow10Add(k, k);
  }

  lemma DivMod(v: nat, d: nat)
    requires d > 0
    ensures (v / d) * d + v % d == v && v % d < d
  {
  }

  /** ... and putting any `k`-digit number in front of any `k`-digit
      block (leading zeros allowed) splits back into the two. */
  lemma JoinSplits(a: nat, b: nat, k: nat)
    requires k >= 1 && a > 0 && Digits(a) == k && b < Pow10(k)
    ensures a * Pow10(k) + b > 0 && Split(a * Pow10(k) + b) == (a, b)
  {
    var p := Pow10(k);
    var v := a * p + b;
    assert v > 0 by {
      MulMono(1, a, p);
    }
    assert Digits(v) == 2 * k by {
      JoinRange(a, b, k);
      EvenRange(v, k);
    }
    SplitAt(v, k);
    DivModUnique(v, p, a, b);
  }

  lemma JoinRange(a: nat, b: nat, k: nat)
    requires k >= 1 && a > 0 && Digits(a) == k && b < Pow10(k)
    ensures Pow10(k - 1) * Pow10(k) <= a * Pow10(k) + b < Pow10(k) * Pow10(k)
  {
    DigitsRange(a, k);
    MulMono(Pow10(k - 1), a, Pow10(k));
    MulMono(a + 1, Pow10(k), Pow10(k));
  }

  // ---------------------------------------------------------------
  // One stone

  /** What a stone becomes on a blink: 0 becomes 1, a number with an
      even count of digits (`ilog10` odd) becomes its two halves, and
      any other number is multiplied by 2024. */
  function Blink(v: nat): (r: seq<nat>)
    ensures 1 <= |r| <= 2
  {
    if v == 0 then [1]
    else if ILog10(v) % 2 == 1 then [Split(v).0, Split(v).1]
    else [v * 2024]
  }

  /** A blink splits a stone exactly when its number has an even count
      of digits, and then into two numbers of half as many digits each
      (the second with leading zeros dropped) that join back into it. */
  lemma BlinkSplitsEvenDigits(v: nat)
    ensures |Blink(v)| == 2 <==> v > 0 && Digits(v) % 2 == 0
    ensures |Blink(v)| == 2 ==> (Blink(v)[0] * Pow10(Digits(v) / 2) + Blink(v)[1] == v
      && Digits(Blink(v)[0]) == Digits(v) / 2 && Blink(v)[1] < Pow10(Digits(v) / 2))
  {
    if v > 0 {
      var n := Digits(v);
      assert ILog10(v) == n - 1;
      if n % 2 == 0 {
        var k := n / 2;
        assert (ILog10(v) + 1) / 2 == k;
        assert Blink(v) == [Split(v).0, Split(v).1];
        SplitHalves(v, k);
      } else {
        assert |Blink(v)| == 1;
      }
    }
  }

  // ---------------------------------------------------------------
  // Counts

  /** The count of `k`, 0 when `k` is not a key (`or_default`). */
  function Get(m: Counts, k: nat): nat {
    if k in m then m[k] else 0
  }

  /** `*map.entry(k).or_default() += c`. */
  function AddTo(m: Counts, k: nat, c: nat): (r: Counts)
    ensures r.Keys == m.Keys + {k}
    ensures forall w :: Get(r, w) == Get(m, w) + (if w == k then c else 0)
  {
    m[k := Get(m, k) + c]
  }

  function Values(m: Counts): nat -> nat {
    k => Get(m, k)
  }

  /** The number of stones (`values().sum()`). */
  ghost function Total(m: Counts): nat {
    SetSum(m.Keys, Values(m))
  }

  /** Adding `c` stones of one number adds `c` to the total. */
  lemma TotalAddTo(m: Counts, k: nat, c: nat)
    ensures Total(AddTo(m, k, c)) == Total(m) + c
  {
    var r := AddTo(m, k, c);
    var rest := m.Keys - {k};
    SetSumSame(rest, Values(r), Values(m));
    SetSumRemove(r.Keys, Values(r), k);
    assert r.Keys - {k} == rest;
    if k in m {
      SetSumRemove(m.Keys, Values(m), k);
    } else {
      assert m.Keys == rest;
    }
  }

  /** `c` added up `n` times, that is `c * n`, spelled out so that the
      solver does not have to multiply. */
  function Copies(c: nat, n: nat): nat {
    if n == 0 then 0 else c + Copies(c, n - 1)
  }

  lemma {:induction false} CopiesIsProduct(c: nat, n: nat)
    ensures Copies(c, n) == c * n
  {
    if n > 0 {
      CopiesIsProduct(c, n - 1);
    }
  }

  lemma {:induction false} CopiesAdd(c: nat, a: nat, b: nat)
    ensures Copies(c, a + b) == Copies(c, a) + Copies(c, b)
    decreases a
  {
    if a > 0 {
      CopiesAdd(c, a - 1, b);
    }
  }

  /** How many times `w` occurs in `ws`. */
  function Occurrences(ws: seq<nat>, w: nat): nat
    decreases ws
  {
    if ws == [] then 0 else (if ws[0] == w then 1 else 0) + Occurrences(ws[1..], w)
  }

  lemma {:induction false} OccurrencesOfMember(ws: seq<nat>, w: nat)
    ensures w in ws <==> Occurrences(ws, w) >= 1
    decreases ws
  {
    if ws != [] {
      OccurrencesOfMember(ws[1..], w);
      assert ws == [ws[0]] + ws[1..];
    }
  }

  /** `c` more stones of each number in `ws`, one `AddTo` at a time. */
  function AddEach(m: Counts, ws: seq<nat>, c: nat): Counts
    decreases ws
  {
    if ws == [] then m else AddEach(AddTo(m, ws[0], c), ws[1..], c)
  }

  lemma AddEachOne(m: Counts, w: nat, c: nat)
    ensures AddEach(m, [w], c) == AddTo(m, w, c)
  {
    assert [w][1..] == [];
  }

  lemma AddEachTwo(m: Counts, a: nat, b: nat, c: nat)
    ensures AddEach(m, [a, b], c) == AddTo(AddTo(m, a, c), b, c)
  {
    assert [a, b][1..] == [b];
    AddEachOne(AddTo(m, a, c), b, c);
  }

  /** The numbers of `ws` become keys ... */
  lemma {:induction false} AddEachKeys(m: Counts, ws: seq<nat>, c: nat)
    ensures AddEach(m, ws, c).Keys == m.Keys + set w | w in ws
    decreases ws
  {
    if ws != [] {
      AddEachKeys(AddTo(m, ws[0], c), ws[1..], c);
      assert ws == [ws[0]] + ws[1..];
    }
  }

  /** ... each gains `c` per occurrence in `ws` ... */
  lemma {:induction false} AddEachGet(m: Counts, ws: seq<nat>, c: nat, w: nat)
    ensures Get(AddEach(m, ws, c), w) == Get(m, w) + Copies(c, Occurrences(ws, w))
    decreases ws
  {
    if ws != [] {
      AddEachGet(AddTo(m, ws[0], c), ws[1..], c, w);
      CopiesAdd(c, if ws[0] == w then 1 else 0, Occurrences(ws[1..], w));
    }
  }

  /** ... and the total gains `c` per element of `ws`. */
  lemma {:induction false} AddEachTotal(m: Counts, ws: seq<nat>, c: nat)
    ensures Total(AddEach(m, ws, c)) == Total(m) + Copies(c, |ws|)
    decreases ws
  {
    if ws != [] {
      AddEachTotal(AddTo(m, ws[0], c), ws[1..], c);
      TotalAddTo(m, ws[0], c);
    }
  }

  // ---------------------------------------------------------------
  // One blink over all the stones
  //
  // The counts after a blink are defined for any rule `turn` saying what
  // each stone becomes; `BlinkAll` takes `Blink` for it.

  /** What the `v` stones contribute to the count of `w`. */
  function Share(stones: Counts, turn: nat -> seq<nat>, w: nat): nat -> nat {
    v => Copies(Get(stones, v), Occurrences(turn(v), w))
  }

  /** How many stones the `v` stones turn into. */
  function Weight(stones: Counts, turn: nat -> seq<nat>): nat -> nat {
    v => Copies(Get(stones, v), |turn(v)|)
  }

  /** The numbers the stones numbered in `s` turn into. */
  function Offspring(s: set<nat>, turn: nat -> seq<nat>): set<nat> {
    set v, w | v in s && w in turn(v) :: w
  }

  /** The counts after the stones numbered in `s` have changed: each
      number `w` gets the count of every stone that turns into it, once
      per time it does. */
  ghost function After(stones: Counts, s: set<nat>, turn: nat -> seq<nat>): Counts {
    map w | w in Offspring(s, turn) :: SetSum(s, Share(stones, turn, w))
  }

  /** The counts after one blink of every stone. */
  ghost function BlinkAll(stones: Counts): Counts {
    After(stones, stones.Keys, Blink)
  }

  /** The count of any number after the change, whether or not it is a key. */
  lemma AfterGet(stones: Counts, s: set<nat>, turn: nat -> seq<nat>, w: nat)
    ensures Get(After(stones, s, turn), w) == SetSum(s, Share(stones, turn, w))
  {
    if w !in Offspring(s, turn) {
      forall x | x in s
        ensures Share(stones, turn, w)(x) == 0
      {
        OccurrencesOfMember(turn(x), w);
      }
      SetSumZero(s, Share(stones, turn, w));
    }
  }

  /** Changing the stones of one more number `v` adds their count to each
      number `v` turns into. */
  lemma AfterStep(stones: Counts, s: set<nat>, turn: nat -> seq<nat>, v: nat)
    requires v !in s
    ensures After(stones, s + {v}, turn) == AddEach(After(stones, s, turn), turn(v), Get(stones, v))
  {
    var a := After(stones, s, turn);
    var b := AddEach(a, turn(v), Get(stones, v));
    var a' := After(stones, s + {v}, turn);
    AfterStepKeys(stones, s, turn, v);
    forall w | w in a'
      ensures Get(a', w) == Get(b, w)
    {
      AfterStepCount(stones, s, turn, v, w);
    }
    SameCounts(a', b);
  }

  lemma AfterStepCount(stones: Counts, s: set<nat>, turn: nat -> seq<nat>, v: nat, w: nat)
    requires v !in s
    ensures Get(After(stones, s + {v}, turn), w) == Get(AddEach(After(stones, s, turn), turn(v), Get(stones, v)), w)
  {
    AfterStepGet(stones, s, turn, v, w);
    AddEachGet(After(stones, s, turn), turn(v), Get(stones, v), w);
  }

  lemma AfterKeys(stones: Counts, s: set<nat>, turn: nat -> seq<nat>)
    ensures After(stones, s, turn).Keys == Offspring(s, turn)
  {
  }

  lemma AfterStepKeys(stones: Counts, s: set<nat>, turn: nat -> seq<nat>, v: nat)
    ensures After(stones, s + {v}, turn).Keys == AddEach(After(stones, s, turn), turn(v), Get(stones, v)).Keys
  {
    AddEachKeys(After(stones, s, turn), turn(v), Get(stones, v));
    OffspringAdd(s, turn, v);
    AfterKeys(stones, s, turn);
    AfterKeys(stones, s + {v}, turn);
  }

  /** Changing no numbers leaves no stones. */
  lemma AfterNothing(stones: Counts, turn: nat -> seq<nat>)
    ensures After(stones, {}, turn) == map[]
  {
    assert Offspring({}, turn) == {};
  }

  lemma OffspringAdd(s: set<nat>, turn: nat -> seq<nat>, v: nat)
    ensures Offspring(s + {v}, turn) == Offspring(s, turn) + set w | w in turn(v)
  {
  }

  lemma AfterStepGet(stones: Counts, s: set<nat>, turn: nat -> seq<nat>, v: nat, w: nat)
    requires v !in s
    ensures Get(After(stones, s + {v}, turn), w) == Get(After(stones, s, turn), w) + Copies(Get(stones, v), Occurrences(turn(v), w))
  {
    AfterGet(stones, s, turn, w);
    AfterGet(stones, s + {v}, turn, w);
    SetSumRemove(s + {v}, Share(stones, turn, w), v);
    assert (s + {v}) - {v} == s;
  }

  /** Two tallies with the same keys and the same counts are the same. */
  lemma SameCounts(m: Counts, m': Counts)
    requires m.Keys == m'.Keys
    requires forall w :: w in m ==> Get(m, w) == Get(m', w)
    ensures m == m'
  {
  }

  /** `c` stones of `v` become `c` stones of each number `v` turns into:
      the total after the change is the sum of count times the number of
      stones each turns into. */
  lemma {:induction false} AfterTotal(stones: Counts, s: set<nat>, turn: nat -> seq<nat>)
    ensures Total(After(stones, s, turn)) == SetSum(s, Weight(stones, turn))
    decreases s
  {
    if s == {} {
      assert After(stones, s, turn) == map[];
    } else {
      var x :| x in s;
      AfterTotal(stones, s - {x}, turn);
      AfterStep(stones, s - {x}, turn, x);
      assert s - {x} + {x} == s;
      AddEachTotal(After(stones, s - {x}, turn), turn(x), Get(stones, x));
      SetSumRemove(s, Weight(stones, turn), x);
    }
  }

  lemma {:induction false} CopiesAtLeast(c: nat, n: nat)
    requires n >= 1
    ensures Copies(c, n) >= c
  {
  }

  /** After a blink there are as many stones as the counts times 1 or 2,
      so at least as many as before. */
  lemma BlinkNeverShrinks(stones: Counts)
    ensures Total(BlinkAll(stones)) == SetSum(stones.Keys, Weight(stones, Blink))
    ensures Total(BlinkAll(stones)) >= Total(stones)
  {
    AfterTotal(stones, stones.Keys, Blink);
    forall v | v in stones.Keys
      ensures Values(stones)(v) <= Weight(stones, Blink)(v)
    {
      CopiesAtLeast(Get(stones, v), |Blink(v)|);
    }
    SetSumMono(stones.Keys, Values(stones), Weight(stones, Blink));
  }

  /** Every number a stone turns into gets at least that stone's count:
      0 hands its count to 1, a split stone to both halves, any other
      stone to its multiple of 2024. */
  lemma ChildInheritsCount(stones: Counts, v: nat, w: nat)
    requires v in stones && w in Blink(v)
    ensures Get(BlinkAll(stones), w) >= stones[v]
  {
    AfterGet(stones, stones.Keys, Blink, w);
    SetSumRemove(stones.Keys, Share(stones, Blink, w), v);
    OccurrencesOfMember(Blink(v), w);
    CopiesAtLeast(stones[v], Occurrences(Blink(v), w));
  }

  /** `process_stones`: visits the counts in any order and adds each
      count to the numbers its stone turns into. */
  method ProcessStones(stones: Counts) returns (result: Counts)
    ensures result == BlinkAll(stones)
  {
    result := map[];
    var keys := stones.Keys;
    ghost var done: set<nat> := {};
    AfterNothing(stones, Blink);
    while keys != {}
      invariant keys <= stones.Keys && done == stones.Keys - keys
      invariant result == After(stones, done, Blink)
      decreases keys
    {
      var stone :| stone in keys;
      var count := stones[stone];
      ghost var before := result;
      if stone == 0 {
        result := AddTo(result, 1, count);
        AddEachOne(before, 1, count);
      } else if ILog10(stone) % 2 == 1 {
        var (a, b) := Split(stone);
        result := AddTo(result, a, count);
        result := AddTo(result, b, count);
        AddEachTwo(before, a, b, count);
      } else {
        result := AddTo(result, stone * 2024, count);
        AddEachOne(before, stone * 2024, count);
      }
      assert result == AddEach(before, Blink(stone), count);
      assert count == Get(stones, stone);
      AfterStep(stones, done, Blink, stone);
      assert result == After(stones, done + {stone}, Blink);
      MoveKey(stones.Keys, keys, done, stone);
      keys, done := keys - {stone}, done + {stone};
    }
    assert done == stones.Keys;
  }

  /** `step` applied `n` times. */
  ghost function Repeat(step: Counts -> Counts, stones: Counts, n: nat): Counts {
    if n == 0 then stones else step(Repeat(step, stones, n - 1))
  }

  /** A step that never lowers a size never lowers it over `n` steps. */
  lemma {:induction false} RepeatNeverShrinks(step: Counts -> Counts, size: Counts -> nat, stones: Counts, n: nat)
    requires forall m :: size(step(m)) >= size(m)
    ensures size(Repeat(step, stones, n)) >= size(stones)
    decreases n
  {
    if n > 0 {
      RepeatNeverShrinks(step, size, stones, n - 1);
      var prev := Repeat(step, stones, n - 1);
      assert size(step(prev)) >= size(prev);
    }
  }

  /** Moving one key from the keys still to visit to those visited. */
  lemma MoveKey(all: set<nat>, keys: set<nat>, done: set<nat>, x: nat)
    requires keys <= all && done == all - keys && x in keys
    ensures keys - {x} <= all && done + {x} == all - (keys - {x})
  {
  }

  /** The counts after `n` blinks. */
  ghost function Iterate(stones: Counts, n: nat): Counts {
    Repeat(BlinkAll, stones, n)
  }

  /** Blinking never lowers the number of stones. */
  lemma IterateNeverShrinks(stones: Counts, n: nat)
    ensures Total(Iterate(stones, n)) >= Total(stones)
  {
    forall m: Counts
      ensures Total(BlinkAll(m)) >= Total(m)
    {
      BlinkNeverShrinks(m);
    }
    RepeatNeverShrinks(BlinkAll, Total, stones, n);
  }

  /** `values().sum()`. */
  method SumCounts(m: Counts) returns (total: nat)
    ensures total == Total(m)
  {
    total := 0;
    var keys := m.Keys;
    ghost var done: set<nat> := {};
    while keys != {}
      invariant keys <= m.Keys && done == m.Keys - keys
      invariant total == SetSum(done, Values(m))
      decreases keys
    {
      var k :| k in keys;
      SetSumRemove(done + {k}, Values(m), k);
      assert (done + {k}) - {k} == done;
      total := total + m[k];
      keys, done := keys - {k}, done + {k};
    }
    assert done == m.Keys;
  }

  // ---------------------------------------------------------------
  // Input and answer

  /** The fold of `parse_input`: one more stone of each number in turn. */
  function Tally(xs: seq<nat>): (r: Counts)
    ensures r.Keys == set x | x in xs
    ensures forall w :: Get(r, w) == multiset(xs)[w]
  {
    if xs == [] then map[]
    else
      var init := xs[..|xs| - 1];
      assert xs == init + [xs[|xs| - 1]];
      AddTo(Tally(init), xs[|xs| - 1], 1)
  }

  /** The tally holds one stone per number read. */
  lemma {:induction false} TallyTotal(xs: seq<nat>)
    ensures Total(Tally(xs)) == |xs|
    decreases |xs|
  {
    if xs == [] {
    } else {
      TallyTotal(xs[..|xs| - 1]);
      TotalAddTo(Tally(xs[..|xs| - 1]), xs[|xs| - 1], 1);
    }
  }

  /** Every piece is a number. */
  predicate AllNumbers(pieces: seq<string>) {
    forall k :: 0 <= k < |pieces| ==> ParseNat(pieces[k]).Some?
  }

  /** `.map(|x| x.parse::<usize>().unwrap())`: a piece that is not a
      number makes `unwrap` panic (None). */
  function ParseNumbers(pieces: seq<string>): (r: Option<seq<nat>>)
    ensures r.Some? <==> AllNumbers(pieces)
    ensures r.Some? ==> (|r.value| == |pieces|
      && forall k :: 0 <= k < |pieces| ==> ParseNat(pieces[k]) == Some(r.value[k]))
  {
    var opts := seq(|pieces|, k requires 0 <= k < |pieces| => ParseNat(pieces[k]));
    assert forall k :: 0 <= k < |pieces| ==> opts[k] == ParseNat(pieces[k]);
    AllSome(opts)
  }

  /** `parse_input`: the numbers between single spaces, tallied. */
  function ParseInput(input: string): (r: Option<Counts>)
    ensures r.Some? <==> AllNumbers(Text.Split(input, ' '))
    ensures r.Some? ==> Total(r.value) == |Text.Split(input, ' ')|
  {
    var pieces := Text.Split(input, ' ');
    var numbers := ParseNumbers(pieces);
    if numbers.None? then
      None
    else
      TallyTotal(numbers.value);
      Some(Tally(numbers.value))
  }

  /** `solve`: the number of stones after `blinks` blinks, never fewer
      than the numbers read. */
  method Solve(input: string, blinks: nat) returns (r: Option<nat>)
    ensures r.Some? <==> ParseInput(input).Some?
    ensures r.Some? ==> (r.value == Total(Iterate(ParseInput(input).value, blinks))
      && r.value >= |Text.Split(input, ' ')|)
  {
    var parsed := ParseInput(input);
    if parsed.None? {
      return None;
    }
    var stones := parsed.value;
    for i := 0 to blinks
      invariant stones == Iterate(parsed.value, i)
    {
      stones := ProcessStones(stones);
    }
    var total := SumCounts(stones);
    IterateNeverShrinks(parsed.value, blinks);
    return Some(total);
  }
}
