/** Hiking trails on a topographic map (src/years/y2024/day10.rs): a trail
    starts at height 0 and climbs by exactly one per step to a
    4-neighbour until it reaches height 9. Part 1 scores a trailhead by
    the number of distinct height-9 cells it reaches, part 2 rates it by
    the number of distinct trails. */
module HikingTrails {
  import opened Wrappers
  import opened Text
  import opened Sums
  import opened Sets
  import opened Grids

  /** The parsed input: row `y`, column `x` holds the height at `(x, y)`. */
  type TopoMap = seq<seq<nat>>

  /** Every height is a decimal digit, as `to_digit(10)` leaves it. */
  predicate Heights(m: TopoMap) {
    forall y, x :: 0 <= y < |m| && 0 <= x < |m[y]| ==> m[y][x] <= 9
  }

  /** `parse_input` for one line: `to_digit(10).unwrap()` on every
      character; None stands for the panic on a non-digit. */
  function ParseRow(line: string): (r: Option<seq<nat>>)
    ensures r.Some? <==> forall k :: 0 <= k < |line| ==> IsDigit(line[k])
    ensures r.Some? ==> |r.value| == |line|
    ensures r.Some? ==> forall k :: 0 <= k < |line| ==> ToDigit(line[k]) == Some(r.value[k]) && r.value[k] <= 9
  {
    var opts := seq(|line|, k requires 0 <= k < |line| => ToDigit(line[k]));
    assert forall k :: 0 <= k < |line| ==> opts[k] == ToDigit(line[k]);
    AllSome(opts)
  }

  /** `parse_input` on the lines of the input. */
  function ParseRows(lines: seq<string>): (r: Option<TopoMap>)
    ensures r.Some? <==> forall y :: 0 <= y < |lines| ==> ParseRow(lines[y]).Some?
    ensures r.Some? ==> (|r.value| == |lines|
      && forall y :: 0 <= y < |lines| ==> ParseRow(lines[y]) == Some(r.value[y]))
  {
    var opts := seq(|lines|, k requires 0 <= k < |lines| => ParseRow(lines[k]));
    assert forall k :: 0 <= k < |lines| ==> opts[k] == ParseRow(lines[k]);
    AllSome(opts)
  }

  /** `parse_input`: one row per line of `input.lines()`. */
  function ParseInput(input: string): (r: Option<TopoMap>)
    ensures (forall y :: 0 <= y < |Lines(input)| ==> ParseRow(Lines(input)[y]).Some?) ==> r.Some?
    ensures r.Some? ==> (|r.value| == |Lines(input)|
      && forall y :: 0 <= y < |r.value| ==> ParseRow(Lines(input)[y]) == Some(r.value[y]))
  {
    ParseRows(Lines(input))
  }

  /** Parsing leaves only digits. */
  lemma ParsedHeights(input: string)
    requires ParseInput(input).Some?
    ensures Heights(ParseInput(input).value)
  {
    var m, lines := ParseInput(input).value, Lines(input);
    forall y, x | 0 <= y < |m| && 0 <= x < |m[y]| ensures m[y][x] <= 9 {
      assert ParseRow(lines[y]) == Some(m[y]);
    }
  }

  // ---------------------------------------------------------------
  // Positions

  /** `add_points`. */
  function Add(a: Point, b: Point): Point {
    (a.0 + b.0, a.1 + b.1)
  }

  /** The four directions in the order the source tries them. */
  const Dirs: seq<Point> := [(1, 0), (-1, 0), (0, 1), (0, -1)]

  /** A cell of the map: row `y` exists and has a column `x`. */
  predicate InBounds(m: TopoMap, p: Point) {
    0 <= p.1 < |m| && 0 <= p.0 < |m[p.1]|
  }

  /** The height of a cell (`get_value` on a cell that exists). */
  function Height(m: TopoMap, p: Point): nat
    requires InBounds(m, p)
  {
    m[p.1][p.0]
  }

  /** `out_of_bounds` as the source writes it: `x` against the number of
      rows, `y` against the length of row 0. */
  predicate OutOfBoundsAsWritten(m: TopoMap, p: Point) {
    p.0 < 0 || p.1 < 0 || p.0 >= |m| || p.1 >= |m[0]|
  }

  /** Every row as long as the map is tall. */
  predicate Square(m: TopoMap) {
    forall y :: 0 <= y < |m| ==> |m[y]| == |m|
  }

  /** On a square map the bounds check as written is exactly "not a cell". */
  lemma OutOfBoundsOnSquareMaps(m: TopoMap, p: Point)
    requires Square(m)
    ensures OutOfBoundsAsWritten(m, p) <==> !InBounds(m, p)
  {
  }

  /** The check as written rejects the cell (1, 0) of the one-row map
      [0, 1] and accepts the missing cell (0, 1) of the same map. */
  lemma OutOfBoundsAsWrittenSwapsAxes()
    ensures InBounds([[0, 1]], (1, 0)) && OutOfBoundsAsWritten([[0, 1]], (1, 0))
    ensures !InBounds([[0, 1]], (0, 1)) && !OutOfBoundsAsWritten([[0, 1]], (0, 1))
  {
  }

  /** `get_value`: `map[y][x]`; None stands for the index panic. */
  function GetValue(m: TopoMap, p: Point): (r: Option<nat>)
    ensures r.Some? <==> InBounds(m, p)
    ensures r.Some? ==> r.value == Height(m, p)
  {
    if InBounds(m, p) then Some(m[p.1][p.0]) else None
  }

  /** `p` and `q` are 4-neighbours. */
  predicate Adjacent(p: Point, q: Point) {
    (p.0 == q.0 && (q.1 == p.1 + 1 || q.1 == p.1 - 1))
    || (p.1 == q.1 && (q.0 == p.0 + 1 || q.0 == p.0 - 1))
  }

  lemma AdjacentIsStep(p: Point, q: Point)
    ensures Adjacent(p, q) <==> exists k :: 0 <= k < 4 && q == Add(p, Dirs[k])
  {
    if Adjacent(p, q) {
      var k := if q.0 == p.0 + 1 then 0 else if q.0 == p.0 - 1 then 1 else if q.1 == p.1 + 1 then 2 else 3;
      assert q == Add(p, Dirs[k]);
    }
  }


  // ---------------------------------------------------------------
  // Trails

  /** A hiking trail whose first cell has height `first`: every cell is on
      the map, each step goes to a 4-neighbour, and the heights climb by
      one per step. */
  predicate IsTrail(m: TopoMap, t: seq<Point>, first: int) {
    && t != []
    && (forall i :: 0 <= i < |t| ==> InBounds(m, t[i]) && Height(m, t[i]) == first + i)
    && (forall i :: 0 <= i < |t| - 1 ==> Adjacent(t[i], t[i + 1]))
  }

  /** A step onto a trail one higher makes a trail. */
  lemma TrailCons(m: TopoMap, p: Point, t: seq<Point>, first: int)
    requires IsTrail(m, t, first + 1) && InBounds(m, p) && Height(m, p) == first && Adjacent(p, t[0])
    ensures IsTrail(m, [p] + t, first) && ([p] + t)[0] == p && ([p] + t)[|t|] == t[|t| - 1]
  {
    var t' := [p] + t;
    forall i | 0 < i < |t'| ensures t'[i] == t[i - 1] {
    }
  }

  /** A trail without its first cell is a trail one higher. */
  lemma TrailTail(m: TopoMap, t: seq<Point>, first: int)
    requires IsTrail(m, t, first) && |t| > 1
    ensures IsTrail(m, t[1..], first + 1)
  {
    var rest := t[1..];
    forall i | 0 <= i < |rest| ensures rest[i] == t[i + 1] {
    }
  }

  /** The cells `get_visited_points` inserts when called at `p` after a
      cell of height `last`: `p` itself when it is one higher, and, below
      height 9, what its four neighbours reach. */
  function Reach(m: TopoMap, p: Point, last: int): set<Point>
    requires Heights(m) && -1 <= last <= 8
    decreases 9 - last, 0
  {
    if !InBounds(m, p) || Height(m, p) != last + 1 then {}
    else if Height(m, p) == 9 then {p}
    else {p} + NeighbourReach(m, p, Height(m, p), 4)
  }

  /** What the first `k` of the four neighbours of `p` reach after
      height `h`. */
  function NeighbourReach(m: TopoMap, p: Point, h: int, k: nat): set<Point>
    requires Heights(m) && 0 <= h <= 8 && k <= 4
    decreases 9 - h, k + 1
  {
    if k == 0 then {} else NeighbourReach(m, p, h, k - 1) + Reach(m, Add(p, Dirs[k - 1]), h)
  }

  lemma {:induction false} NeighbourReachMember(m: TopoMap, p: Point, h: int, k: nat, q: Point)
    requires Heights(m) && 0 <= h <= 8 && k <= 4
    ensures q in NeighbourReach(m, p, h, k) <==> exists j :: 0 <= j < k && q in Reach(m, Add(p, Dirs[j]), h)
  {
    if k > 0 {
      NeighbourReachMember(m, p, h, k - 1, q);
    }
  }

  /** A reached cell other than `p` is reached from a neighbour of `p`
      one higher. */
  lemma ReachStep(m: TopoMap, p: Point, last: int, q: Point) returns (n: Point)
    requires Heights(m) && -1 <= last <= 8 && q in Reach(m, p, last) && q != p
    ensures InBounds(m, p) && Height(m, p) == last + 1 && last + 1 <= 8
    ensures Adjacent(p, n) && q in Reach(m, n, last + 1)
  {
    var h := Height(m, p);
    NeighbourReachMember(m, p, h, 4, q);
    var j :| 0 <= j < 4 && q in Reach(m, Add(p, Dirs[j]), h);
    n := Add(p, Dirs[j]);
    AdjacentIsStep(p, n);
  }

  /** Every reached cell ends a trail from `p`. */
  lemma {:induction false} ReachEndsTrail(m: TopoMap, p: Point, last: int, q: Point)
    requires Heights(m) && -1 <= last <= 8 && q in Reach(m, p, last)
    ensures exists t :: IsTrail(m, t, last + 1) && t[0] == p && t[|t| - 1] == q
    decreases 9 - last
  {
    if q == p {
      assert IsTrail(m, [p], last + 1);
    } else {
      var n := ReachStep(m, p, last, q);
      ReachEndsTrail(m, n, last + 1, q);
      var t' :| IsTrail(m, t', last + 2) && t'[0] == n && t'[|t'| - 1] == q;
      TrailCons(m, p, t', last + 1);
      assert IsTrail(m, [p] + t', last + 1) && ([p] + t')[0] == p && ([p] + t')[|[p] + t'| - 1] == q;
    }
  }

  /** ... and the end of every trail from `p` is reached. */
  lemma {:induction false} TrailEndReached(m: TopoMap, p: Point, last: int, t: seq<Point>)
    requires Heights(m) && -1 <= last <= 8
    requires IsTrail(m, t, last + 1) && t[0] == p
    ensures t[|t| - 1] in Reach(m, p, last)
    decreases |t|
  {
    if |t| > 1 {
      var h := Height(m, p);
      assert Height(m, t[1]) == last + 2;
      AdjacentIsStep(p, t[1]);
      var j :| 0 <= j < 4 && t[1] == Add(p, Dirs[j]);
      var rest := t[1..];
      TrailTail(m, t, h);
      TrailEndReached(m, t[1], h, rest);
      NeighbourReachMember(m, p, h, 4, t[|t| - 1]);
    }
  }

  /** What `get_visited_points` collects from `p` is exactly the set of
      ends of trails from `p`. */
  lemma ReachIsTrailEnds(m: TopoMap, p: Point, last: int, q: Point)
    requires Heights(m) && -1 <= last <= 8
    ensures q in Reach(m, p, last) <==> exists t :: IsTrail(m, t, last + 1) && t[0] == p && t[|t| - 1] == q
  {
    if q in Reach(m, p, last) {
      ReachEndsTrail(m, p, last, q);
    }
    if exists t :: IsTrail(m, t, last + 1) && t[0] == p && t[|t| - 1] == q {
      var t :| IsTrail(m, t, last + 1) && t[0] == p && t[|t| - 1] == q;
      TrailEndReached(m, p, last, t);
    }
  }

  /** The height-9 cells of `s`: `filter(|(x, y)| input[y][x] == 9)`. */
  function Peaks(m: TopoMap, s: set<Point>): set<Point> {
    set q | q in s && InBounds(m, q) && Height(m, q) == 9
  }

  lemma PeaksUnion(m: TopoMap, a: set<Point>, b: set<Point>)
    ensures Peaks(m, a + b) == Peaks(m, a) + Peaks(m, b)
    ensures |Peaks(m, a + b)| <= |Peaks(m, a)| + |Peaks(m, b)|
  {
    assert Peaks(m, a + b) == Peaks(m, a) + Peaks(m, b);
    UnionCardinality(Peaks(m, a), Peaks(m, b));
  }

  /** `get_trailhead_rating` after a cell of height `last`. Filtering the
      off-map neighbours out before the fold changes nothing, as an
      off-map cell rates 0. */
  function Rating(m: TopoMap, p: Point, last: int): nat
    requires Heights(m) && -1 <= last <= 8
    decreases 9 - last, 0
  {
    if !InBounds(m, p) || Height(m, p) != last + 1 then 0
    else if Height(m, p) == 9 then 1
    else NeighbourRatings(m, p, Height(m, p), 4)
  }

  /** The fold over the first `k` of the four neighbours. */
  function NeighbourRatings(m: TopoMap, p: Point, h: int, k: nat): nat
    requires Heights(m) && 0 <= h <= 8 && k <= 4
    decreases 9 - h, k + 1
  {
    if k == 0 then 0 else NeighbourRatings(m, p, h, k - 1) + Rating(m, Add(p, Dirs[k - 1]), h)
  }

  /** Each distinct peak reached needs a trail of its own, so a trailhead's
      score never exceeds its rating. */
  lemma {:induction false} ScoreAtMostRating(m: TopoMap, p: Point, last: int)
    requires Heights(m) && -1 <= last <= 8
    ensures |Peaks(m, Reach(m, p, last))| <= Rating(m, p, last)
    decreases 9 - last, 0
  {
    if !InBounds(m, p) || Height(m, p) != last + 1 {
      assert Peaks(m, {}) == {};
    } else if Height(m, p) == 9 {
      assert Peaks(m, {p}) == {p};
    } else {
      var h := Height(m, p);
      NeighbourScoresAtMostRatings(m, p, h, 4);
      assert Peaks(m, {p}) == {};
      PeaksUnion(m, {p}, NeighbourReach(m, p, h, 4));
    }
  }

  lemma {:induction false} NeighbourScoresAtMostRatings(m: TopoMap, p: Point, h: int, k: nat)
    requires Heights(m) && 0 <= h <= 8 && k <= 4
    ensures |Peaks(m, NeighbourReach(m, p, h, k))| <= NeighbourRatings(m, p, h, k)
    decreases 9 - h, k + 1
  {
    if k == 0 {
      assert Peaks(m, {}) == {};
    } else {
      NeighbourScoresAtMostRatings(m, p, h, k - 1);
      ScoreAtMostRating(m, Add(p, Dirs[k - 1]), h);
      PeaksUnion(m, NeighbourReach(m, p, h, k - 1), Reach(m, Add(p, Dirs[k - 1]), h));
    }
  }

  /** A trailhead has a positive rating exactly when it reaches a peak. */
  lemma {:induction false} RatingPositive(m: TopoMap, p: Point, last: int)
    requires Heights(m) && -1 <= last <= 8
    ensures Rating(m, p, last) > 0 <==> Peaks(m, Reach(m, p, last)) != {}
    decreases 9 - last, 0
  {
    ScoreAtMostRating(m, p, last);
    if Rating(m, p, last) > 0 {
      if Height(m, p) == 9 {
        assert p in Peaks(m, Reach(m, p, last));
      } else {
        var h := Height(m, p);
        NeighbourRatingsPositive(m, p, h, 4);
        var q :| q in Peaks(m, NeighbourReach(m, p, h, 4));
        assert q in Peaks(m, Reach(m, p, last));
      }
    }
  }

  lemma {:induction false} NeighbourRatingsPositive(m: TopoMap, p: Point, h: int, k: nat)
    requires Heights(m) && 0 <= h <= 8 && k <= 4
    requires NeighbourRatings(m, p, h, k) > 0
    ensures Peaks(m, NeighbourReach(m, p, h, k)) != {}
    decreases 9 - h, k + 1
  {
    var n := Add(p, Dirs[k - 1]);
    if NeighbourRatings(m, p, h, k - 1) > 0 {
      NeighbourRatingsPositive(m, p, h, k - 1);
      var q :| q in Peaks(m, NeighbourReach(m, p, h, k - 1));
      assert q in Peaks(m, NeighbourReach(m, p, h, k));
    } else {
      RatingPositive(m, n, h);
      var q :| q in Peaks(m, Reach(m, n, h));
      assert q in Peaks(m, NeighbourReach(m, p, h, k));
    }
  }

  // ---------------------------------------------------------------
  // Trailheads and the two parts

  /** The trailheads of rows before `y`, then those of row `y` before
      column `x`, in the order the solvers' nested loops meet them. */
  function HeadsBefore(m: TopoMap, y: nat, x: nat): seq<Point>
    requires y <= |m| && (y < |m| ==> x <= |m[y]|) && (y == |m| ==> x == 0)
    decreases y, x
  {
    if x > 0 then HeadsBefore(m, y, x - 1) + (if m[y][x - 1] == 0 then [(x - 1, y)] else [])
    else if y > 0 then HeadsBefore(m, y - 1, |m[y - 1]|)
    else []
  }

  /** Every height-0 cell, in reading order. */
  function Trailheads(m: TopoMap): seq<Point> {
    HeadsBefore(m, |m|, 0)
  }

  lemma {:induction false} HeadsBeforeMember(m: TopoMap, y: nat, x: nat, q: Point)
    requires y <= |m| && (y < |m| ==> x <= |m[y]|) && (y == |m| ==> x == 0)
    ensures q in HeadsBefore(m, y, x) <==>
      InBounds(m, q) && Height(m, q) == 0 && (q.1 < y || (q.1 == y && q.0 < x))
    decreases y, x
  {
    if x > 0 {
      HeadsBeforeMember(m, y, x - 1, q);
    } else if y > 0 {
      HeadsBeforeMember(m, y - 1, |m[y - 1]|, q);
    }
  }

  /** The trailheads are exactly the cells of height 0. */
  lemma TrailheadsAreZeros(m: TopoMap, q: Point)
    ensures q in Trailheads(m) <==> InBounds(m, q) && Height(m, q) == 0
  {
    HeadsBeforeMember(m, |m|, 0, q);
  }

  /** One more cell of row `y`. */
  lemma HeadsNext(m: TopoMap, y: nat, x: nat)
    requires y < |m| && x < |m[y]|
    ensures m[y][x] == 0 ==> HeadsBefore(m, y, x + 1) == HeadsBefore(m, y, x) + [(x, y)]
    ensures m[y][x] != 0 ==> HeadsBefore(m, y, x + 1) == HeadsBefore(m, y, x)
  {
    assert HeadsBefore(m, y, x) + [] == HeadsBefore(m, y, x);
  }

  /** Part 1's score of a trailhead: the height-9 cells its walk visits. */
  function Score(m: TopoMap, p: Point): nat
    requires Heights(m)
  {
    |Peaks(m, Reach(m, p, -1))|
  }

  /** The `scores` vector of `solve_part_1` for the trailheads `heads`. */
  function Scores(m: TopoMap, heads: seq<Point>): seq<nat>
    requires Heights(m)
  {
    if heads == [] then [] else Scores(m, heads[..|heads| - 1]) + [Score(m, heads[|heads| - 1])]
  }

  /** The `scores` vector of `solve_part_2` for the trailheads `heads`. */
  function Ratings(m: TopoMap, heads: seq<Point>): seq<nat>
    requires Heights(m)
  {
    if heads == [] then [] else Ratings(m, heads[..|heads| - 1]) + [Rating(m, heads[|heads| - 1], -1)]
  }

  lemma ScoresSnoc(m: TopoMap, heads: seq<Point>, p: Point)
    requires Heights(m)
    ensures Scores(m, heads + [p]) == Scores(m, heads) + [Score(m, p)]
    ensures Ratings(m, heads + [p]) == Ratings(m, heads) + [Rating(m, p, -1)]
  {
    assert (heads + [p])[..|heads|] == heads;
  }

  /** Part 1 never exceeds part 2, trailhead by trailhead. */
  lemma {:induction false} ScoresAtMostRatings(m: TopoMap, heads: seq<Point>)
    requires Heights(m)
    ensures |Scores(m, heads)| == |Ratings(m, heads)| == |heads|
    ensures Sum(Scores(m, heads)) <= Sum(Ratings(m, heads))
  {
    if heads != [] {
      var init, p := heads[..|heads| - 1], heads[|heads| - 1];
      ScoresAtMostRatings(m, init);
      ScoreAtMostRating(m, p, -1);
      SumAppend(Scores(m, init), [Score(m, p)]);
      SumAppend(Ratings(m, init), [Rating(m, p, -1)]);
    }
  }


  // ---------------------------------------------------------------
  // The walk and the solvers as written

  function UnionOpt(a: Option<set<Point>>, b: Option<set<Point>>): (r: Option<set<Point>>)
    ensures r.Some? <==> a.Some? && b.Some?
    ensures r.Some? ==> r.value == a.value + b.value
  {
    if a.Some? && b.Some? then Some(a.value + b.value) else None
  }

  /** The cells `get_visited_points` inserts when called at `p` after a
      cell of height `last`, with the source's `out_of_bounds`: a cell the
      check lets through but `map[y][x]` cannot index makes the whole walk
      panic (None). */
  function ReachAsWritten(m: TopoMap, p: Point, last: int): Option<set<Point>>
    requires Heights(m) && -1 <= last <= 8
    decreases 9 - last, 0
  {
    if OutOfBoundsAsWritten(m, p) then Some({})
    else match GetValue(m, p)
      case None => None
      case Some(h) =>
        if h != last + 1 then Some({})
        else if h == 9 then Some({p})
        else UnionOpt(Some({p}), NeighbourReachAsWritten(m, p, h, 4))
  }

  /** The filtered walk over the first `k` neighbours, as written. */
  function NeighbourReachAsWritten(m: TopoMap, p: Point, h: int, k: nat): Option<set<Point>>
    requires Heights(m) && 0 <= h <= 8 && k <= 4
    decreases 9 - h, k + 1
  {
    if k == 0 then Some({})
    else
      var n := Add(p, Dirs[k - 1]);
      UnionOpt(NeighbourReachAsWritten(m, p, h, k - 1), if OutOfBoundsAsWritten(m, n) then Some({}) else ReachAsWritten(m, n, h))
  }

  /** Once one neighbour's walk panics, so do the folds over more of them. */
  lemma {:induction false} NeighbourReachFails(m: TopoMap, p: Point, h: int, k: nat, k': nat)
    requires Heights(m) && 0 <= h <= 8 && k <= k' <= 4
    requires NeighbourReachAsWritten(m, p, h, k).None?
    ensures NeighbourReachAsWritten(m, p, h, k').None?
    decreases k' - k
  {
    if k < k' {
      NeighbourReachFails(m, p, h, k, k' - 1);
    }
  }

  /** On a square map the source's walk never panics and visits exactly
      the ends of the gradual trails from `p` (`ReachIsTrailEnds`). */
  lemma {:induction false} ReachAgreesOnSquareMaps(m: TopoMap, p: Point, last: int)
    requires Heights(m) && Square(m) && -1 <= last <= 8
    ensures ReachAsWritten(m, p, last) == Some(Reach(m, p, last))
    decreases 9 - last, 0
  {
    OutOfBoundsOnSquareMaps(m, p);
    if InBounds(m, p) && Height(m, p) == last + 1 && Height(m, p) != 9 {
      NeighbourReachesAgree(m, p, Height(m, p), 4);
    }
  }

  lemma {:induction false} NeighbourReachesAgree(m: TopoMap, p: Point, h: int, k: nat)
    requires Heights(m) && Square(m) && 0 <= h <= 8 && k <= 4
    ensures NeighbourReachAsWritten(m, p, h, k) == Some(NeighbourReach(m, p, h, k))
    decreases 9 - h, k + 1
  {
    if k > 0 {
      var n := Add(p, Dirs[k - 1]);
      NeighbourReachesAgree(m, p, h, k - 1);
      OutOfBoundsOnSquareMaps(m, n);
      ReachAgreesOnSquareMaps(m, n, h);
      if OutOfBoundsAsWritten(m, n) {
        assert Reach(m, n, h) == {};
      }
    }
  }

  /** `get_visited_points`: walks every trail from `p`, inserting each cell
      it steps on into the mutable set; nothing stops it from walking a cell
      twice. None stands for the panic of an index the bounds check as
      written lets through. */
  method GetVisitedPoints(m: TopoMap, visited: set<Point>, p: Point, last: int) returns (visited': Option<set<Point>>)
    requires Heights(m) && -1 <= last <= 8
    ensures visited'.Some? <==> ReachAsWritten(m, p, last).Some?
    ensures visited'.Some? ==> visited'.value == visited + ReachAsWritten(m, p, last).value
    decreases 9 - last
  {
    if OutOfBoundsAsWritten(m, p) {
      return Some(visited);
    }
    if !InBounds(m, p) {
      return None;
    }
    var current := m[p.1][p.0];
    if current != last + 1 {
      return Some(visited);
    }
    var acc := visited + {p};
    if current == 9 {
      return Some(acc);
    }
    ghost var before := acc;
    for k := 0 to 4
      invariant NeighbourReachAsWritten(m, p, current, k).Some?
      invariant acc == before + NeighbourReachAsWritten(m, p, current, k).value
    {
      var next := Add(p, Dirs[k]);
      if !OutOfBoundsAsWritten(m, next) {
        var r := GetVisitedPoints(m, acc, next, current);
        if r.None? {
          NeighbourReachFails(m, p, current, k + 1, 4);
          return None;
        }
        acc := r.value;
      }
    }
    return Some(acc);
  }

  /** Part 1's score of a trailhead as the source computes it: the
      height-9 cells its walk visits, or the walk's panic. */
  function ScoreAsWritten(m: TopoMap, p: Point): Option<nat>
    requires Heights(m)
  {
    match ReachAsWritten(m, p, -1)
    case None => None
    case Some(visited) => Some(|Peaks(m, visited)|)
  }

  /** On a square map the score as written never panics and is the number
      of height-9 ends of trails from the trailhead. */
  lemma ScoreAgreesOnSquareMaps(m: TopoMap, p: Point)
    requires Heights(m) && Square(m)
    ensures ScoreAsWritten(m, p) == Some(Score(m, p))
  {
    ReachAgreesOnSquareMaps(m, p, -1);
  }

  /** The block of `solve_part_1` for one trailhead: a fresh `visited`
      set filled by `get_visited_points`, then its height-9 cells counted. */
  method TrailheadScore(m: TopoMap, p: Point) returns (score: Option<nat>)
    requires Heights(m)
    ensures score == ScoreAsWritten(m, p)
  {
    var visited := GetVisitedPoints(m, {}, p, -1);
    if visited.None? {
      return None;
    }
    assert visited.value == ReachAsWritten(m, p, -1).value;
    score := Some(|Peaks(m, visited.value)|);
  }

  /** The sum of the `scores` vector of `solve_part_1` over the trailheads
      `heads`, None as soon as one walk panics. */
  function ScoreTotal(m: TopoMap, heads: seq<Point>): Option<nat>
    requires Heights(m)
  {
    if heads == [] then Some(0)
    else AddOpt(ScoreTotal(m, heads[..|heads| - 1]), ScoreAsWritten(m, heads[|heads| - 1]))
  }

  /** The same for `solve_part_2`'s ratings. */
  function RatingTotal(m: TopoMap, heads: seq<Point>): Option<nat>
    requires Heights(m)
  {
    if heads == [] then Some(0)
    else AddOpt(RatingTotal(m, heads[..|heads| - 1]), RatingAsWritten(m, heads[|heads| - 1], -1))
  }

  lemma CombineTotals(t: Option<nat>, t0: Option<nat>, w: Option<nat>, s: int, s0: int, y: nat)
    requires t == AddOpt(t0, w) && t0 == Some(s0) && w == Some(y) && s == s0 + y
    ensures t == Some(s)
  {
  }

  lemma ScoresLastSum(m: TopoMap, heads: seq<Point>)
    requires Heights(m) && heads != []
    ensures Sum(Scores(m, heads)) == Sum(Scores(m, heads[..|heads| - 1])) + Score(m, heads[|heads| - 1])
  {
    var sc := Scores(m, heads);
    assert sc[..|sc| - 1] == Scores(m, heads[..|heads| - 1]);
  }

  /** On a square map part 1 never panics: its total is the sum of the
      trailheads' scores. */
  lemma {:induction false} ScoreTotalOnSquareMaps(m: TopoMap, heads: seq<Point>)
    requires Heights(m) && Square(m)
    ensures ScoreTotal(m, heads) == Some(Sum(Scores(m, heads)))
  {
    if heads != [] {
      var init, p := heads[..|heads| - 1], heads[|heads| - 1];
      ScoreTotalOnSquareMaps(m, init);
      ScoreAgreesOnSquareMaps(m, p);
      ScoresLastSum(m, heads);
      assert ScoreTotal(m, heads) == AddOpt(ScoreTotal(m, init), ScoreAsWritten(m, p));
      CombineTotals(ScoreTotal(m, heads), ScoreTotal(m, init), ScoreAsWritten(m, p),
                    Sum(Scores(m, heads)), Sum(Scores(m, init)), Score(m, p));
    }
  }

  /** On a square map part 2 never panics: its total is the sum of the
      trailheads' ratings. */
  lemma {:induction false} RatingTotalOnSquareMaps(m: TopoMap, heads: seq<Point>)
    requires Heights(m) && Square(m)
    ensures RatingTotal(m, heads) == Some(Sum(Ratings(m, heads)))
  {
    if heads != [] {
      var init, p := heads[..|heads| - 1], heads[|heads| - 1];
      RatingTotalOnSquareMaps(m, init);
      AsWrittenAgreesOnSquareMaps(m, p, -1);
      RatingsLastSum(m, heads);
      assert RatingTotal(m, heads) == AddOpt(RatingTotal(m, init), RatingAsWritten(m, p, -1));
      CombineTotals(RatingTotal(m, heads), RatingTotal(m, init), RatingAsWritten(m, p, -1),
                    Sum(Ratings(m, heads)), Sum(Ratings(m, init)), Rating(m, p, -1));
    }
  }

  lemma RatingsLastSum(m: TopoMap, heads: seq<Point>)
    requires Heights(m) && heads != []
    ensures Sum(Ratings(m, heads)) == Sum(Ratings(m, heads[..|heads| - 1])) + Rating(m, heads[|heads| - 1], -1)
  {
    var ra := Ratings(m, heads);
    assert ra[..|ra| - 1] == Ratings(m, heads[..|heads| - 1]);
  }

  /** One trailhead whose walk panics makes the whole part panic. */
  lemma {:induction false} TotalsFail(m: TopoMap, heads: seq<Point>, i: nat)
    requires Heights(m) && i < |heads|
    ensures ScoreAsWritten(m, heads[i]).None? ==> ScoreTotal(m, heads).None?
    ensures RatingAsWritten(m, heads[i], -1).None? ==> RatingTotal(m, heads).None?
  {
    if i < |heads| - 1 {
      TotalsFail(m, heads[..|heads| - 1], i);
    }
  }

  /** On a one-row map of at least two cells starting with 0, the walk as
      written from the corner lets the missing cell (0, 1) through and
      panics indexing it. */
  lemma OneRowReachPanics(m: TopoMap)
    requires Heights(m) && |m| == 1 && |m[0]| >= 2 && m[0][0] == 0
    ensures ReachAsWritten(m, (0, 0), -1) == None
  {
    var q := Add((0, 0), Dirs[2]);
    assert !OutOfBoundsAsWritten(m, q) && GetValue(m, q).None?;
    assert ReachAsWritten(m, q, 0) == None;
    assert NeighbourReachAsWritten(m, (0, 0), 0, 3) == None;
    assert NeighbourReachAsWritten(m, (0, 0), 0, 4) == None;
    assert !OutOfBoundsAsWritten(m, (0, 0)) && GetValue(m, (0, 0)) == Some(0);
  }

  /** On the map 0123456789 both parts of the source panic, while the
      trailhead (0, 0) has one trail to a 9. */
  lemma OneRampPartsPanic(m: TopoMap)
    requires OneRamp(m)
    ensures Heights(m) && Rating(m, (0, 0), -1) == 1
    ensures ScoreTotal(m, Trailheads(m)) == None && RatingTotal(m, Trailheads(m)) == None
  {
    OneRampAsWrittenPanics(m);
    OneRowReachPanics(m);
    TrailheadsAreZeros(m, (0, 0));
    var t := Trailheads(m);
    var i :| 0 <= i < |t| && t[i] == (0, 0);
    TotalsFail(m, t, i);
  }

  /** `solve_part_1` on a parsed map: push the score of every height-0
      cell met by the nested loops, then sum. */
  method TotalScore(m: TopoMap) returns (total: Option<nat>)
    requires Heights(m)
    ensures total == ScoreTotal(m, Trailheads(m))
  {
    total := Some(0);
    for y := 0 to |m|
      invariant total == ScoreTotal(m, HeadsBefore(m, y, 0))
    {
      for x := 0 to |m[y]|
        invariant total == ScoreTotal(m, HeadsBefore(m, y, x))
      {
        HeadsNext(m, y, x);
        if m[y][x] == 0 {
          var score := TrailheadScore(m, (x, y));
          ghost var heads := HeadsBefore(m, y, x) + [(x, y)];
          assert heads[..|heads| - 1] == HeadsBefore(m, y, x);
          total := AddOpt(total, score);
        }
      }
    }
  }

  /** `solve_part_2` on a parsed map: the same loops, pushing ratings. */
  method TotalRating(m: TopoMap) returns (total: Option<nat>)
    requires Heights(m)
    ensures total == RatingTotal(m, Trailheads(m))
  {
    total := Some(0);
    for y := 0 to |m|
      invariant total == RatingTotal(m, HeadsBefore(m, y, 0))
    {
      for x := 0 to |m[y]|
        invariant total == RatingTotal(m, HeadsBefore(m, y, x))
      {
        HeadsNext(m, y, x);
        if m[y][x] == 0 {
          var rating := RatingAsWritten(m, (x, y), -1);
          ghost var heads := HeadsBefore(m, y, x) + [(x, y)];
          assert heads[..|heads| - 1] == HeadsBefore(m, y, x);
          total := AddOpt(total, rating);
        }
      }
    }
  }

  /** `solve_part_1`: None when parsing or a walk panics; on a square map
      (every AoC input) the sum of the trailheads' scores. */
  method SolvePart1(input: string) returns (r: Option<nat>)
    ensures ParseInput(input).None? ==> r.None?
    ensures ParseInput(input).Some? ==> (Heights(ParseInput(input).value)
      && r == ScoreTotal(ParseInput(input).value, Trailheads(ParseInput(input).value)))
    ensures ParseInput(input).Some? && Square(ParseInput(input).value) ==>
      r == Some(Sum(Scores(ParseInput(input).value, Trailheads(ParseInput(input).value))))
  {
    var parsed := ParseInput(input);
    if parsed.None? {
      return None;
    }
    ParsedHeights(input);
    if Square(parsed.value) {
      ScoreTotalOnSquareMaps(parsed.value, Trailheads(parsed.value));
    }
    r := TotalScore(parsed.value);
  }

  /** `solve_part_2`: None when parsing or a rating panics; on a square
      map the sum of the trailheads' ratings. */
  method SolvePart2(input: string) returns (r: Option<nat>)
    ensures ParseInput(input).None? ==> r.None?
    ensures ParseInput(input).Some? ==> (Heights(ParseInput(input).value)
      && r == RatingTotal(ParseInput(input).value, Trailheads(ParseInput(input).value)))
    ensures ParseInput(input).Some? && Square(ParseInput(input).value) ==>
      r == Some(Sum(Ratings(ParseInput(input).value, Trailheads(ParseInput(input).value))))
  {
    var parsed := ParseInput(input);
    if parsed.None? {
      return None;
    }
    ParsedHeights(input);
    if Square(parsed.value) {
      RatingTotalOnSquareMaps(parsed.value, Trailheads(parsed.value));
    }
    r := TotalRating(parsed.value);
  }

  // ---------------------------------------------------------------
  // The rating as written

  function AddOpt(a: Option<nat>, b: Option<nat>): (r: Option<nat>)
    ensures r.Some? <==> a.Some? && b.Some?
    ensures r.Some? ==> r.value == a.value + b.value
  {
    if a.Some? && b.Some? then Some(a.value + b.value) else None
  }

  /** `get_trailhead_rating` with the source's `out_of_bounds`: a cell the
      check lets through but `map[y][x]` cannot index makes the whole
      rating panic (None). */
  function RatingAsWritten(m: TopoMap, p: Point, last: int): Option<nat>
    requires Heights(m) && -1 <= last <= 8
    decreases 9 - last, 0
  {
    if OutOfBoundsAsWritten(m, p) then Some(0)
    else match GetValue(m, p)
      case None => None
      case Some(h) =>
        if h != last + 1 then Some(0)
        else if h == 9 then Some(1)
        else NeighboursAsWritten(m, p, h, 4)
  }

  /** The filtered fold over the first `k` neighbours, as written. */
  function NeighboursAsWritten(m: TopoMap, p: Point, h: int, k: nat): Option<nat>
    requires Heights(m) && 0 <= h <= 8 && k <= 4
    decreases 9 - h, k + 1
  {
    if k == 0 then Some(0)
    else
      var n := Add(p, Dirs[k - 1]);
      AddOpt(NeighboursAsWritten(m, p, h, k - 1), if OutOfBoundsAsWritten(m, n) then Some(0) else RatingAsWritten(m, n, h))
  }

  /** On a square map the source's rating never panics and agrees with
      the corrected one. */
  lemma {:induction false} AsWrittenAgreesOnSquareMaps(m: TopoMap, p: Point, last: int)
    requires Heights(m) && Square(m) && -1 <= last <= 8
    ensures RatingAsWritten(m, p, last) == Some(Rating(m, p, last))
    decreases 9 - last, 0
  {
    OutOfBoundsOnSquareMaps(m, p);
    if InBounds(m, p) && Height(m, p) == last + 1 && Height(m, p) != 9 {
      NeighboursAgreeOnSquareMaps(m, p, Height(m, p), 4);
    }
  }

  lemma {:induction false} NeighboursAgreeOnSquareMaps(m: TopoMap, p: Point, h: int, k: nat)
    requires Heights(m) && Square(m) && 0 <= h <= 8 && k <= 4
    ensures NeighboursAsWritten(m, p, h, k) == Some(NeighbourRatings(m, p, h, k))
    decreases 9 - h, k + 1
  {
    if k > 0 {
      var n := Add(p, Dirs[k - 1]);
      var w := if OutOfBoundsAsWritten(m, n) then Some(0) else RatingAsWritten(m, n, h);
      NeighboursAgreeOnSquareMaps(m, p, h, k - 1);
      NeighbourAgreesOnSquareMaps(m, n, h);
      assert NeighboursAsWritten(m, p, h, k) == AddOpt(NeighboursAsWritten(m, p, h, k - 1), w);
      assert NeighbourRatings(m, p, h, k) == NeighbourRatings(m, p, h, k - 1) + Rating(m, n, h);
      CombineTotals(NeighboursAsWritten(m, p, h, k), NeighboursAsWritten(m, p, h, k - 1), w,
                    NeighbourRatings(m, p, h, k), NeighbourRatings(m, p, h, k - 1), Rating(m, n, h));
    }
  }

  /** One neighbour's contribution, as written and corrected. */
  lemma {:induction false} NeighbourAgreesOnSquareMaps(m: TopoMap, n: Point, h: int)
    requires Heights(m) && Square(m) && 0 <= h <= 8
    ensures (if OutOfBoundsAsWritten(m, n) then Some(0) else RatingAsWritten(m, n, h)) == Some(Rating(m, n, h))
    decreases 9 - h, 1
  {
    OutOfBoundsOnSquareMaps(m, n);
    AsWrittenAgreesOnSquareMaps(m, n, h);
  }

  /** A map of one row holding the heights 0 to 9 in order, like
      0123456789. */
  predicate OneRamp(m: TopoMap) {
    |m| == 1 && |m[0]| == 10 && forall x :: 0 <= x < 10 ==> m[0][x] == x
  }

  /** Below height 9, a cell's rating is the sum of its neighbours'. */
  lemma RatingOfFour(m: TopoMap, p: Point, last: int)
    requires Heights(m) && -1 <= last <= 7 && InBounds(m, p) && Height(m, p) == last + 1
    ensures Rating(m, p, last) == Rating(m, Add(p, Dirs[0]), last + 1) + Rating(m, Add(p, Dirs[1]), last + 1)
      + Rating(m, Add(p, Dirs[2]), last + 1) + Rating(m, Add(p, Dirs[3]), last + 1)
  {
    var h := last + 1;
    assert NeighbourRatings(m, p, h, 1) == Rating(m, Add(p, Dirs[0]), h);
    assert NeighbourRatings(m, p, h, 2) == NeighbourRatings(m, p, h, 1) + Rating(m, Add(p, Dirs[1]), h);
    assert NeighbourRatings(m, p, h, 3) == NeighbourRatings(m, p, h, 2) + Rating(m, Add(p, Dirs[2]), h);
    assert NeighbourRatings(m, p, h, 4) == NeighbourRatings(m, p, h, 3) + Rating(m, Add(p, Dirs[3]), h);
  }

  /** A cell that is off the map or not one higher than `last` rates 0. */
  lemma RatingZero(m: TopoMap, q: Point, last: int)
    requires Heights(m) && -1 <= last <= 8
    requires InBounds(m, q) ==> Height(m, q) != last + 1
    ensures Rating(m, q, last) == 0
  {
  }

  /** Along the row, every cell starts exactly one trail to the 9. */
  lemma {:induction false} OneRampRating(m: TopoMap, x: int)
    requires OneRamp(m) && 0 <= x <= 9
    ensures Heights(m) && Rating(m, (x, 0), x - 1) == 1
    decreases 9 - x
  {
    assert Heights(m);
    if x < 9 {
      var p := (x, 0);
      OneRampRating(m, x + 1);
      RatingOfFour(m, p, x - 1);
      RampNeighbours(m, x);
    }
  }

  /** Of the four neighbours of the cell `x` of the ramp, only the cell to
      its right is one higher. */
  lemma RampNeighbours(m: TopoMap, x: int)
    requires OneRamp(m) && 0 <= x < 9
    ensures Heights(m)
    ensures Add((x, 0), Dirs[0]) == (x + 1, 0)
    ensures Rating(m, Add((x, 0), Dirs[1]), x) == 0
    ensures Rating(m, Add((x, 0), Dirs[2]), x) == 0 && Rating(m, Add((x, 0), Dirs[3]), x) == 0
  {
    assert Heights(m);
    RatingZero(m, Add((x, 0), Dirs[1]), x);
    OffRowRatings(m, (x, 0), x);
  }

  /** On a map of one row, the cells above and below rate 0. */
  lemma OffRowRatings(m: TopoMap, p: Point, last: int)
    requires Heights(m) && |m| == 1 && p.1 == 0 && -1 <= last <= 8
    ensures Rating(m, Add(p, Dirs[2]), last) == 0 && Rating(m, Add(p, Dirs[3]), last) == 0
  {
    RatingZero(m, Add(p, Dirs[2]), last);
    RatingZero(m, Add(p, Dirs[3]), last);
  }

  /** On a map of one row of at least two cells, the source checks the
      missing cell (0, 1) against the row length, lets it through and
      indexes the missing row 1: the rating as written from a 0 in the
      corner panics. */
  lemma OneRowAsWrittenPanics(m: TopoMap)
    requires Heights(m) && |m| == 1 && |m[0]| >= 2 && m[0][0] == 0
    ensures RatingAsWritten(m, (0, 0), -1) == None
  {
    MissingRowPanics(m, Add((0, 0), Dirs[2]), 0);
    assert NeighboursAsWritten(m, (0, 0), 0, 3) == None;
    assert NeighboursAsWritten(m, (0, 0), 0, 4) == None;
    assert !OutOfBoundsAsWritten(m, (0, 0)) && GetValue(m, (0, 0)) == Some(0);
  }

  /** A cell of the missing second row passes the check as written and
      its lookup panics. */
  lemma MissingRowPanics(m: TopoMap, q: Point, last: int)
    requires Heights(m) && |m| == 1 && |m[0]| >= 2 && q.0 == 0 && q.1 == 1 && -1 <= last <= 8
    ensures !OutOfBoundsAsWritten(m, q) && RatingAsWritten(m, q, last) == None
  {
    assert GetValue(m, q).None?;
  }

  /** So on 0123456789 the source panics where the one trail 0..9 rates 1. */
  lemma OneRampAsWrittenPanics(m: TopoMap)
    requires OneRamp(m)
    ensures Heights(m) && Rating(m, (0, 0), -1) == 1
    ensures RatingAsWritten(m, (0, 0), -1) == None
  {
    OneRampRating(m, 0);
    OneRowAsWrittenPanics(m);
  }

  /** The map 0123456789 is such a map. */
  lemma OneRampExample()
    ensures OneRamp([[0, 1, 2, 3, 4, 5, 6, 7, 8, 9]])
  {
  }
}
