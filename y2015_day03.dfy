/** Houses visited by Santa on an infinite grid (src/years/y2015/day03.rs).
    Every character of the input moves one house north, east, south or
    west; a map from house to number of deliveries records the walk. */
module HouseVisits {
  import opened Wrappers
  import opened Sets

  datatype Pos = Pos(x: int, y: int)

  datatype Direction = North | East | South | West

  const Origin := Pos(0, 0)

  /** `Direction::from_str`: '^', '>', 'v', '<'; anything else panics. */
  function FromChar(c: char): (r: Option<Direction>)
    ensures r.Some? <==> (c == '^' || c == '>' || c == 'v' || c == '<')
    ensures r.Some? ==> ToChar(r.value) == c
  {
    match c
    case '^' => Some(North)
    case '>' => Some(East)
    case 'v' => Some(South)
    case '<' => Some(West)
    case _ => None
  }

  /** The character each direction is written as. */
  function ToChar(d: Direction): char {
    match d
    case North => '^'
    case East => '>'
    case South => 'v'
    case West => '<'
  }

  lemma FromToChar(d: Direction)
    ensures FromChar(ToChar(d)) == Some(d)
  {
  }

  /** `Direction::value`: the unit step, with north pointing to smaller y. */
  function Value(d: Direction): (v: Pos)
    ensures (v.x == 0) != (v.y == 0)
    ensures -1 <= v.x <= 1 && -1 <= v.y <= 1
  {
    match d
    case North => Pos(0, -1)
    case East => Pos(1, 0)
    case South => Pos(0, 1)
    case West => Pos(-1, 0)
  }

  /** `Position += Position`: componentwise addition. */
  function Add(p: Pos, q: Pos): Pos {
    Pos(p.x + q.x, p.y + q.y)
  }

  function Opposite(d: Direction): Direction {
    match d
    case North => South
    case East => West
    case South => North
    case West => East
  }

  /** A step followed by the opposite step returns to the same house. */
  lemma StepBack(p: Pos, d: Direction)
    ensures Add(Add(p, Value(d)), Value(Opposite(d))) == p
    ensures Opposite(Opposite(d)) == d && Opposite(d) != d
  {
  }

  /** Every character read as a direction; the first bad one panics. */
  function ParseDirections(s: string): (r: Option<seq<Direction>>)
    ensures r.Some? <==> forall k :: 0 <= k < |s| ==> FromChar(s[k]).Some?
    ensures r.Some? ==> (|r.value| == |s|
      && forall k :: 0 <= k < |s| ==> FromChar(s[k]) == Some(r.value[k]))
  {
    if s == [] then Some([])
    else
      match (ParseDirections(s[..|s| - 1]), FromChar(s[|s| - 1]))
      case (Some(ds), Some(d)) => Some(ds + [d])
      case (None, _) => None
      case (_, None) => None
  }

  /** The house reached after following `ds` from `start`. */
  function End(start: Pos, ds: seq<Direction>): Pos {
    if ds == [] then start else Add(End(start, ds[..|ds| - 1]), Value(ds[|ds| - 1]))
  }

  /** The houses reached after each move, in order (the start excluded). */
  function Trail(start: Pos, ds: seq<Direction>): (t: seq<Pos>)
    ensures |t| == |ds|
    ensures ds != [] ==> t[|t| - 1] == End(start, ds)
  {
    if ds == [] then [] else Trail(start, ds[..|ds| - 1]) + [End(start, ds)]
  }

  /** The taxicab distance from the start is at most the number of moves. */
  lemma {:induction false} EndWithinReach(start: Pos, ds: seq<Direction>)
    ensures Abs(End(start, ds).x - start.x) + Abs(End(start, ds).y - start.y) <= |ds|
  {
    if ds != [] {
      EndWithinReach(start, ds[..|ds| - 1]);
    }
  }

  function Abs(n: int): nat {
    if n < 0 then -n else n
  }

  function Get(houses: map<Pos, nat>, p: Pos): nat {
    if p in houses then houses[p] else 0
  }

  /** The house map after one more delivery at every house of `trail`,
      in order. */
  function DeliverAll(houses: map<Pos, nat>, trail: seq<Pos>): map<Pos, nat> {
    if trail == [] then houses
    else
      var before := DeliverAll(houses, trail[..|trail| - 1]);
      var p := trail[|trail| - 1];
      before[p := Get(before, p) + 1]
  }

  lemma DeliverAllSnoc(houses: map<Pos, nat>, trail: seq<Pos>, p: Pos)
    ensures var before := DeliverAll(houses, trail);
      DeliverAll(houses, trail + [p]) == before[p := Get(before, p) + 1]
  {
    assert (trail + [p])[..|trail|] == trail;
  }

  /** The houses in the map afterwards are those before and those of
      the trail. */
  lemma {:induction false} DeliverAllKeys(houses: map<Pos, nat>, trail: seq<Pos>)
    ensures DeliverAll(houses, trail).Keys == houses.Keys + Elements(trail)
  {
    if trail != [] {
      var init, p := trail[..|trail| - 1], trail[|trail| - 1];
      DeliverAllKeys(houses, init);
      assert trail == init + [p];
      assert Elements(trail) == Elements(init) + {p};
    }
  }

  /** Each house gains one delivery per occurrence in the trail, so a
      house off the trail keeps its count. */
  lemma {:induction false} DeliverAllCounts(houses: map<Pos, nat>, trail: seq<Pos>)
    ensures forall p :: Get(DeliverAll(houses, trail), p) == Get(houses, p) + multiset(trail)[p]
  {
    if trail != [] {
      var init, q := trail[..|trail| - 1], trail[|trail| - 1];
      DeliverAllCounts(houses, init);
      assert trail == init + [q];
      assert multiset(trail) == multiset(init) + multiset{q};
    }
  }

  lemma TrailSnoc(start: Pos, ds: seq<Direction>, d: Direction)
    ensures End(start, ds + [d]) == Add(End(start, ds), Value(d))
    ensures Trail(start, ds + [d]) == Trail(start, ds) + [End(start, ds + [d])]
  {
    assert (ds + [d])[..|ds|] == ds;
  }

  /** `ds` is `s` read character by character. */
  ghost predicate Reads(s: string, ds: seq<Direction>) {
    |ds| == |s| && forall m :: 0 <= m < |s| ==> FromChar(s[m]) == Some(ds[m])
  }

  lemma ReadsSnoc(s: string, k: nat, ds: seq<Direction>)
    requires k < |s| && Reads(s[..k], ds) && FromChar(s[k]).Some?
    ensures Reads(s[..k + 1], ds + [FromChar(s[k]).value])
  {
  }

  /** A sequence of directions that matches the text character by
      character is its parse. */
  lemma ParseAgrees(s: string, ds: seq<Direction>)
    requires Reads(s, ds)
    ensures ParseDirections(s) == Some(ds)
  {
    var r := ParseDirections(s);
    assert r.Some?;
    assert forall m :: 0 <= m < |s| ==> r.value[m] == ds[m];
    assert r.value == ds;
  }

  lemma ParseFailsAt(s: string, k: nat)
    requires k < |s| && FromChar(s[k]).None?
    ensures ParseDirections(s).None?
  {
  }

  lemma ParseSnoc(s: string, k: nat, ds: seq<Direction>)
    requires k < |s| && ParseDirections(s[..k]) == Some(ds) && FromChar(s[k]).Some?
    ensures ParseDirections(s[..k + 1]) == Some(ds + [FromChar(s[k]).value])
  {
    assert s[..k + 1][..k] == s[..k];
  }

  /** One of the delivery loops of `solve_part_1`/`solve_part_2`: reads the
      characters one by one, moves, and bumps the count of the house reached.
      `None` is the panic on a character that is not a direction. */
  method Walk(houses: map<Pos, nat>, start: Pos, input: string)
    returns (r: Option<map<Pos, nat>>)
    ensures r.None? <==> ParseDirections(input).None?
    ensures r.Some? ==> r.value == DeliverAll(houses, Trail(start, ParseDirections(input).value))
  {
    var current := start;
    var result: map<Pos, nat> := houses;
    ghost var ds: seq<Direction> := [];
    ghost var trail: seq<Pos> := [];
    for k := 0 to |input|
      invariant Reads(input[..k], ds)
      invariant current == End(start, ds) && trail == Trail(start, ds)
      invariant result == DeliverAll(houses, trail)
    {
      var d := FromChar(input[k]);
      if d.None? {
        ParseFailsAt(input, k);
        return None;
      }
      TrailSnoc(start, ds, d.value);
      ReadsSnoc(input, k, ds);
      ds := ds + [d.value];
      current := Add(current, Value(d.value));
      DeliverAllSnoc(houses, trail, current);
      trail := trail + [current];
      result := result[current := Get(result, current) + 1];
    }
    assert input[..|input|] == input;
    ParseAgrees(input, ds);
    assert result == DeliverAll(houses, Trail(start, ParseDirections(input).value));
    return Some(result);
  }

  /** The houses that get at least one present when `ds` is followed from
      the origin, the origin included. */
  function Houses(ds: seq<Direction>): set<Pos> {
    {Origin} + Elements(Trail(Origin, ds))
  }

  function Elements(t: seq<Pos>): set<Pos> {
    set p | p in t
  }

  /** Part 1: the number of distinct houses visited. */
  method SolvePart1(input: string) returns (r: Option<nat>)
    ensures r.None? <==> ParseDirections(input).None?
    ensures r.Some? ==> r.value == |Houses(ParseDirections(input).value)|
  {
    var houses := Walk(map[Origin := 1], Origin, input);
    if houses.None? {
      return None;
    }
    ghost var t := Trail(Origin, ParseDirections(input).value);
    DeliverAllKeys(map[Origin := 1], t);
    assert map[Origin := 1].Keys == {Origin};
    return Some(|houses.value.Keys|);
  }

  /** At least the origin, and at most one new house per move. */
  lemma {:induction false} HousesBounds(ds: seq<Direction>)
    ensures 1 <= |Houses(ds)| <= 1 + |ds|
  {
    if ds != [] {
      var init := ds[..|ds| - 1];
      HousesBounds(init);
      assert Trail(Origin, ds) == Trail(Origin, init) + [End(Origin, ds)];
      assert Houses(ds) == Houses(init) + {End(Origin, ds)};
    }
    assert Origin in Houses(ds);
  }

  /** The deliveries of one walk from the origin: one at the origin and
      one per move, so the counts add up to `1 + |ds|`. */
  lemma DeliveriesCount(ds: seq<Direction>)
    ensures forall p ::
      Get(DeliverAll(map[Origin := 1], Trail(Origin, ds)), p) == (multiset{Origin} + multiset(Trail(Origin, ds)))[p]
    ensures |multiset{Origin} + multiset(Trail(Origin, ds))| == 1 + |ds|
  {
    var start := map[Origin := 1];
    var t := Trail(Origin, ds);
    var houses := DeliverAll(start, t);
    DeliverAllCounts(start, t);
    forall p
      ensures Get(houses, p) == (multiset{Origin} + multiset(t))[p]
    {
      assert Get(houses, p) == Get(start, p) + multiset(t)[p];
      assert Get(start, p) == multiset{Origin}[p];
    }
    assert |multiset(t)| == |t| == |ds|;
  }

  /** Part 2 deals the characters in pairs: the first of each pair to
      Santa, the second to Robo-Santa. An odd length panics on `c[1]`. */
  function Deal(s: string): (r: Option<(string, string)>)
    ensures r.None? <==> |s| % 2 == 1
    ensures r.Some? ==> (|r.value.0| == |r.value.1| == |s| / 2
      && forall i :: 0 <= i < |s| / 2 ==> r.value.0[i] == s[2 * i] && r.value.1[i] == s[2 * i + 1])
  {
    if |s| % 2 == 1 then None
    else Some((seq(|s| / 2, i requires 0 <= i < |s| / 2 => s[2 * i]),
               seq(|s| / 2, i requires 0 <= i < |s| / 2 => s[2 * i + 1])))
  }

  /** Interleaving the two hands restores the input. */
  function Interleave(a: string, b: string): (s: string)
    requires |a| == |b|
    ensures |s| == 2 * |a|
  {
    if a == [] then [] else [a[0], b[0]] + Interleave(a[1..], b[1..])
  }

  lemma {:induction false} InterleaveAt(a: string, b: string, i: nat)
    requires |a| == |b| && i < |a|
    ensures Interleave(a, b)[2 * i] == a[i] && Interleave(a, b)[2 * i + 1] == b[i]
  {
    if i > 0 {
      InterleaveAt(a[1..], b[1..], i - 1);
    }
  }

  lemma DealInterleave(s: string)
    requires |s| % 2 == 0
    ensures Interleave(Deal(s).value.0, Deal(s).value.1) == s
  {
    var (a, b) := Deal(s).value;
    forall k | 0 <= k < |s|
      ensures Interleave(a, b)[k] == s[k]
    {
      InterleaveAt(a, b, k / 2);
    }
  }

  /** A string parses exactly when both of its hands do. */
  lemma ParseDealt(s: string)
    requires |s| % 2 == 0
    ensures ParseDirections(s).Some? <==>
      (ParseDirections(Deal(s).value.0).Some? && ParseDirections(Deal(s).value.1).Some?)
  {
    var (a, b) := Deal(s).value;
    if ParseDirections(a).Some? && ParseDirections(b).Some? {
      forall k | 0 <= k < |s|
        ensures FromChar(s[k]).Some?
      {
        HandsCoverInput(s, k);
      }
    } else if ParseDirections(a).None? {
      var i :| 0 <= i < |a| && FromChar(a[i]).None?;
      ParseFailsAt(s, 2 * i);
    } else {
      var i :| 0 <= i < |b| && FromChar(b[i]).None?;
      ParseFailsAt(s, 2 * i + 1);
    }
  }

  /** Every character of an even-length input is in one of the hands. */
  lemma HandsCoverInput(s: string, k: nat)
    requires |s| % 2 == 0 && k < |s|
    ensures var (a, b) := Deal(s).value;
      if k % 2 == 0 then s[k] == a[k / 2] else s[k] == b[k / 2]
  {
    var i := k / 2;
    if k % 2 == 0 {
      assert k == 2 * i;
    } else {
      assert k == 2 * i + 1;
    }
  }

  /** The houses of part 2: the origin and both walkers' trails. */
  function SharedHouses(a: seq<Direction>, b: seq<Direction>): set<Pos> {
    Houses(a) + Houses(b)
  }

  /** Part 2: both walkers start at the origin and share one house map. */
  method SolvePart2(input: string) returns (r: Option<nat>)
    ensures r.None? <==> (|input| % 2 == 1 || ParseDirections(input).None?)
    ensures r.Some? ==> (var (a, b) := Deal(input).value;
      r.value == |SharedHouses(ParseDirections(a).value, ParseDirections(b).value)|)
  {
    var dealt := Deal(input);
    if dealt.None? {
      return None;
    }
    var (a, b) := dealt.value;
    ParseDealt(input);
    var houses := Walk(map[Origin := 1], Origin, a);
    if houses.None? {
      return None;
    }
    var shared := Walk(houses.value, Origin, b);
    if shared.None? {
      return None;
    }
    ghost var ta, tb := Trail(Origin, ParseDirections(a).value), Trail(Origin, ParseDirections(b).value);
    DeliverAllKeys(map[Origin := 1], ta);
    DeliverAllKeys(houses.value, tb);
    assert map[Origin := 1].Keys == {Origin};
    assert shared.value.Keys == {Origin} + Elements(ta) + ({Origin} + Elements(tb));
    return Some(|shared.value.Keys|);
  }

  /** Two walkers visit no more houses than one walker making all the
      moves could, and at least as many as either of them alone. */
  lemma SharedHousesBounds(a: seq<Direction>, b: seq<Direction>)
    ensures |Houses(a)| <= |SharedHouses(a, b)| <= 1 + |a| + |b|
    ensures |Houses(b)| <= |SharedHouses(a, b)|
  {
    var ha, hb := Houses(a), Houses(b);
    HousesBounds(a);
    HousesBounds(b);
    assert Origin in ha && Origin in hb;
    assert ha + hb == ha + (hb - {Origin});
    assert |hb - {Origin}| == |hb| - 1;
    UnionCardinality(ha, hb - {Origin});
    UnionCardinality(hb, ha);
    assert hb + ha == ha + hb;
  }
}
