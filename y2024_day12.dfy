/** Garden groups (src/years/y2024/day12.rs). The garden is a grid of
    plant letters; a flood fill splits it into regions of the same letter,
    recording each region's area, perimeter and bounding box, and the
    number of straight sides of its fence is counted afterwards. */
module Garden {
  import opened Wrappers
  import opened Text
  import opened Sets
  import opened SetSums
  import opened Grids

  /** A rectangular garden: every row as long as the first. The source
      tests positions against the first row's length only, so it relies on
      this. */
  predicate IsRectangular(g: seq<string>) {
    forall y :: 0 <= y < |g| ==> |g[y]| == |g[0]|
  }

  type Map = g: seq<string> | IsRectangular(g) witness []

  const Over: Point := (0, -1)
  const Under: Point := (0, 1)
  const Right: Point := (1, 0)
  const Left: Point := (-1, 0)
  /** `DIRECTIONS`, in the order the source visits them. */
  const Directions: seq<Point> := [Over, Under, Right, Left]

  /** `add_points`. */
  function AddPoints(a: Point, b: Point): (r: Point)
    ensures r.0 - a.0 == b.0 && r.1 - a.1 == b.1
  {
    (a.0 + b.0, a.1 + b.1)
  }

  /** The neighbour of `p` in direction `i`. */
  function Neighbour(p: Point, i: nat): Point
    requires i < 4
  {
    AddPoints(Directions[i], p)
  }

  /** `out_of_bounds`: above or left of the map, below the last row, or
      right of the first row's end. */
  predicate OutOfBounds(g: Map, p: Point) {
    p.1 < 0 || p.0 < 0 || p.1 >= |g| || p.0 >= |g[0]|
  }

  /** The plant at an in-bounds position, `map[y][x]`. */
  function Plant(g: Map, p: Point): char
    requires !OutOfBounds(g, p)
  {
    g[p.1][p.0]
  }

  /** Every in-bounds position. */
  ghost function Cells(g: Map): set<Point> {
    set y, x | 0 <= y < |g| && 0 <= x < |g[y]| :: (x, y)
  }

  lemma CellsInBounds(g: Map, p: Point)
    ensures p in Cells(g) <==> !OutOfBounds(g, p)
  {
    if !OutOfBounds(g, p) {
      assert p == (p.0, p.1);
    }
  }

  /** `take_smallest` and `take_largest`: the componentwise minimum and
      maximum, the corners of the smallest box holding both points. */
  function TakeSmallest(a: Point, b: Point): (r: Point)
    ensures r.0 <= a.0 && r.0 <= b.0 && (r.0 == a.0 || r.0 == b.0)
    ensures r.1 <= a.1 && r.1 <= b.1 && (r.1 == a.1 || r.1 == b.1)
  {
    (if a.0 <= b.0 then a.0 else b.0, if a.1 <= b.1 then a.1 else b.1)
  }

  function TakeLargest(a: Point, b: Point): (r: Point)
    ensures r.0 >= a.0 && r.0 >= b.0 && (r.0 == a.0 || r.0 == b.0)
    ensures r.1 >= a.1 && r.1 >= b.1 && (r.1 == a.1 || r.1 == b.1)
  {
    (if a.0 >= b.0 then a.0 else b.0, if a.1 >= b.1 then a.1 else b.1)
  }

  // ---------------------------------------------------------------
  // Fences

  /** A fence runs between `p` and `q` when `q` is off the map or holds
      another plant than `name`. */
  predicate Fenced(g: Map, q: Point, name: char) {
    OutOfBounds(g, q) || Plant(g, q) != name
  }

  /** The in-bounds positions among `qs` whose plant is not `name`. */
  function CountOthers(g: Map, qs: seq<Point>, name: char): (n: nat)
    ensures n <= |qs|
  {
    if qs == [] then 0
    else
      var q := qs[|qs| - 1];
      CountOthers(g, qs[..|qs| - 1], name) + (if !OutOfBounds(g, q) && Plant(g, q) != name then 1 else 0)
  }

  /** The positions among `qs` that are off the map. */
  function CountOutside(g: Map, qs: seq<Point>): (n: nat)
    ensures n <= |qs|
  {
    if qs == [] then 0
    else CountOutside(g, qs[..|qs| - 1]) + (if OutOfBounds(g, qs[|qs| - 1]) then 1 else 0)
  }

  /** The four neighbours, `DIRECTIONS.iter().map(|dir| add_points(dir, p))`. */
  function Neighbours(p: Point): (qs: seq<Point>)
    ensures |qs| == 4 && forall i :: 0 <= i < 4 ==> qs[i] == Neighbour(p, i)
  {
    [Neighbour(p, 0), Neighbour(p, 1), Neighbour(p, 2), Neighbour(p, 3)]
  }

  /** `perimeter_for_plot`: the in-bounds neighbours with another plant
      plus the neighbours off the map. */
  function PerimeterForPlot(g: Map, p: Point, name: char): nat {
    CountOthers(g, Neighbours(p), name) + CountOutside(g, Neighbours(p))
  }

  /** The positions among `qs` with a fence towards them. */
  function FencedCount(g: Map, qs: seq<Point>, name: char): (n: nat)
    ensures n <= |qs|
  {
    if qs == [] then 0
    else FencedCount(g, qs[..|qs| - 1], name) + (if Fenced(g, qs[|qs| - 1], name) then 1 else 0)
  }

  /** Counting the other plants and the off-map positions separately
      counts each fenced position once. */
  lemma {:induction false} CountsAreFenced(g: Map, qs: seq<Point>, name: char)
    ensures CountOthers(g, qs, name) + CountOutside(g, qs) == FencedCount(g, qs, name)
  {
    if qs != [] {
      CountsAreFenced(g, qs[..|qs| - 1], name);
    }
  }

  /** The perimeter of a plot is the number of its four neighbours that
      are off the map or hold another plant, so it lies between 0 and 4. */
  lemma PerimeterCountsFences(g: Map, p: Point, name: char)
    ensures PerimeterForPlot(g, p, name) == FencedCount(g, Neighbours(p), name) <= 4
  {
    CountsAreFenced(g, Neighbours(p), name);
  }

  /** The fenced count of four positions, one by one. */
  lemma FencedFour(g: Map, qs: seq<Point>, name: char)
    requires |qs| == 4
    ensures FencedCount(g, qs, name) == (if Fenced(g, qs[0], name) then 1 else 0)
      + (if Fenced(g, qs[1], name) then 1 else 0) + (if Fenced(g, qs[2], name) then 1 else 0)
      + (if Fenced(g, qs[3], name) then 1 else 0)
  {
    assert qs[..1][..0] == [] && qs[..2][..1] == qs[..1] && qs[..3][..2] == qs[..2];
    assert FencedCount(g, qs[..1], name) == (if Fenced(g, qs[0], name) then 1 else 0);
    assert FencedCount(g, qs[..2], name) == FencedCount(g, qs[..1], name) + (if Fenced(g, qs[1], name) then 1 else 0);
    assert FencedCount(g, qs[..3], name) == FencedCount(g, qs[..2], name) + (if Fenced(g, qs[2], name) then 1 else 0);
  }

  /** The plots of row 0 of the example garden have perimeters 3, 2, 2, 3. */
  lemma ExamplePerimeters()
    ensures IsRectangular(["AAAA", "BBCD", "BBCC", "EEEC"])
    ensures PerimeterForPlot(["AAAA", "BBCD", "BBCC", "EEEC"], (0, 0), 'A') == 3
    ensures PerimeterForPlot(["AAAA", "BBCD", "BBCC", "EEEC"], (1, 0), 'A') == 2
    ensures PerimeterForPlot(["AAAA", "BBCD", "BBCC", "EEEC"], (2, 0), 'A') == 2
    ensures PerimeterForPlot(["AAAA", "BBCD", "BBCC", "EEEC"], (3, 0), 'A') == 3
  {
    var g: Map := ["AAAA", "BBCD", "BBCC", "EEEC"];
    ExamplePlot(g, (0, 0), 3);
    ExamplePlot(g, (1, 0), 2);
    ExamplePlot(g, (2, 0), 2);
    ExamplePlot(g, (3, 0), 3);
  }

  lemma ExamplePlot(g: Map, p: Point, n: nat)
    requires g == ["AAAA", "BBCD", "BBCC", "EEEC"] && 0 <= p.0 < 4 && p.1 == 0
    requires n == (if p.0 == 0 || p.0 == 3 then 3 else 2)
    ensures PerimeterForPlot(g, p, 'A') == n
  {
    PerimeterCountsFences(g, p, 'A');
    FencedFour(g, Neighbours(p), 'A');
    assert Fenced(g, Neighbour(p, 0), 'A');
    assert Fenced(g, Neighbour(p, 1), 'A');
    assert Fenced(g, Neighbour(p, 2), 'A') <==> p.0 == 3;
    assert Fenced(g, Neighbour(p, 3), 'A') <==> p.0 == 0;
  }

  /** The total fence length of a set of plots. */
  ghost function Fences(g: Map, name: char, points: set<Point>): nat {
    SetSum(points, PlotFences(g, name))
  }

  /** The fence length of each plot, as a summand. */
  ghost function PlotFences(g: Map, name: char): Point -> nat {
    p => PerimeterForPlot(g, p, name)
  }

  // ---------------------------------------------------------------
  // Regions and the flood fill

  /** `Region`: a plant letter with the plots gathered so far, their
      count, their fence length, the corners of their bounding box and
      the number of straight sides (filled in after the flood fill). */
  class Region {
    var name: char
    var perimeter: nat
    var area: nat
    var sides: nat
    var start: Point
    var end: Point
    var points: set<Point>

    /** The empty region a new flood fill starts from, its box collapsed
        onto the seed. */
    constructor (name: char, seed: Point)
      ensures this.name == name && perimeter == 0 && area == 0 && sides == 0
      ensures start == seed && end == seed && points == {}
    {
      this.name := name;
      perimeter := 0;
      area := 0;
      sides := 0;
      start := seed;
      end := seed;
      points := {};
    }

    /** A copy of `r` with its side count replaced. */
    constructor Copy(r: Region, sides: nat)
      ensures name == r.name && perimeter == r.perimeter && area == r.area && this.sides == sides
      ensures start == r.start && end == r.end && points == r.points
    {
      name := r.name;
      perimeter := r.perimeter;
      area := r.area;
      this.sides := sides;
      start := r.start;
      end := r.end;
      points := r.points;
    }

    /** The bookkeeping the flood fill keeps: the area counts the plots,
        every plot is on the map and carries the region's letter, the box
        holds every plot and the perimeter is the fence length of the
        plots. */
    ghost predicate Valid(g: Map)
      reads this
    {
      Bookkeeping(g, name, area, perimeter, start, end, points)
    }

    /** The accepting step of `build_region`: count the plot and its
        fence length, record it and widen the box around it. */
    method Take(pos: Point, g: Map)
      requires Valid(g) && pos !in points && !OutOfBounds(g, pos) && Plant(g, pos) == name
      modifies this
      ensures Valid(g)
      ensures points == old(points) + {pos}
      ensures area == old(area) + 1 && perimeter == old(perimeter) + PerimeterForPlot(g, pos, name)
      ensures start == TakeSmallest(pos, old(start)) && end == TakeLargest(pos, old(end))
      ensures name == old(name) && sides == old(sides)
    {
      var perimeter', area', points' := perimeter + PerimeterForPlot(g, pos, name), area + 1, points + {pos};
      var start', end' := TakeSmallest(pos, start), TakeLargest(pos, end);
      AddPlot(g, name, area, perimeter, start, end, points, pos, area', perimeter', start', end', points');
      perimeter, area, points, start, end := perimeter', area', points', start', end';
    }
  }

  /** `Region.Valid` on the values of the fields. */
  ghost predicate Bookkeeping(g: Map, name: char, area: nat, perimeter: nat, start: Point, end: Point, points: set<Point>) {
    && area == |points|
    && (forall p :: p in points ==> !OutOfBounds(g, p) && Plant(g, p) == name)
    && (forall p :: p in points ==> InBox(start, end, p))
    && perimeter == Fences(g, name, points)
  }

  /** Taking a new plot of the region's letter into the region, as
      `build_region` does, keeps the bookkeeping. */
  lemma AddPlot(g: Map, name: char, area: nat, perimeter: nat, start: Point, end: Point, points: set<Point>, pos: Point,
                area': nat, perimeter': nat, start': Point, end': Point, points': set<Point>)
    requires Bookkeeping(g, name, area, perimeter, start, end, points)
    requires pos !in points && !OutOfBounds(g, pos) && Plant(g, pos) == name
    requires area' == area + 1 && perimeter' == perimeter + PerimeterForPlot(g, pos, name)
    requires start' == TakeSmallest(pos, start) && end' == TakeLargest(pos, end) && points' == points + {pos}
    ensures Bookkeeping(g, name, area', perimeter', start', end', points')
  {
    assert |points'| == |points| + 1;
    forall p | p in points'
      ensures !OutOfBounds(g, p) && Plant(g, p) == name && InBox(start', end', p)
    {
      if p != pos {
        assert p in points && InBox(start, end, p);
      }
    }
    FencesAdd(g, name, points, pos);
  }

  /** The fence length of one more plot adds up. */
  lemma FencesAdd(g: Map, name: char, points: set<Point>, pos: Point)
    requires pos !in points
    ensures Fences(g, name, points + {pos}) == Fences(g, name, points) + PerimeterForPlot(g, pos, name)
  {
    SetSumAdd(points, PlotFences(g, name), pos);
  }

  /** `p` lies componentwise between `lo` and `hi`. */
  predicate InBox(lo: Point, hi: Point, p: Point) {
    lo.0 <= p.0 <= hi.0 && lo.1 <= p.1 <= hi.1
  }

  /** The flood fill's own test for taking `p` into a region of `name`. */
  predicate Accepts(g: Map, visited: set<Point>, p: Point, name: char) {
    !OutOfBounds(g, p) && p !in visited && Plant(g, p) == name
  }

  /** A position that is on the map and holds `name` is in `within`. */
  predicate Joins(g: Map, name: char, n: Point, within: set<Point>) {
    !OutOfBounds(g, n) && Plant(g, n) == name ==> n in within
  }

  /** All four neighbours of `q` that are on the map and hold `name` are
      in `within`. */
  predicate AllJoin(g: Map, name: char, q: Point, within: set<Point>) {
    && Joins(g, name, Neighbour(q, 0), within) && Joins(g, name, Neighbour(q, 1), within)
    && Joins(g, name, Neighbour(q, 2), within) && Joins(g, name, Neighbour(q, 3), within)
  }

  /** Every same-letter neighbour on the map of a plot in `added` is in
      `within`. */
  ghost predicate Closed(g: Map, name: char, added: set<Point>, within: set<Point>) {
    forall q :: q in added ==> AllJoin(g, name, q, within)
  }

  /** The closure facts of the fill from `pos`: those of the cells added
      before `before`, those of the cells one recursive call added, and
      finally those of `pos` itself. */
  lemma ClosedGrows(g: Map, name: char, visited: set<Point>, pos: Point, before: set<Point>, after: set<Point>)
    requires before <= after
    requires Closed(g, name, before - visited - {pos}, before)
    requires Closed(g, name, after - before, after)
    ensures Closed(g, name, after - visited - {pos}, after)
  {
    forall q | q in after - visited - {pos}
      ensures AllJoin(g, name, q, after)
    {
      if q in before {
        AllJoinGrows(g, name, q, before, after);
      }
    }
  }

  lemma ClosedSeed(g: Map, name: char, visited: set<Point>, pos: Point, after: set<Point>)
    requires pos in after
    requires Closed(g, name, after - visited - {pos}, after)
    requires NeighboursIn(g, name, pos, 4, after)
    ensures Closed(g, name, after - visited, after)
  {
  }

  /** The same-letter neighbours on the map of `pos` in the first `n`
      directions are in `within`. */
  ghost predicate NeighboursIn(g: Map, name: char, pos: Point, n: nat, within: set<Point>) {
    forall j :: 0 <= j < n && j < 4 ==> Joins(g, name, Neighbour(pos, j), within)
  }

  lemma NeighboursInStep(g: Map, name: char, pos: Point, i: nat, before: set<Point>, after: set<Point>)
    requires i < 4 && before <= after && NeighboursIn(g, name, pos, i, before)
    requires Joins(g, name, Neighbour(pos, i), after)
    ensures NeighboursIn(g, name, pos, i + 1, after)
  {
  }

  /** The plots of a region grow by the cells each call visits. */
  lemma PointsGrow(p0: set<Point>, visited: set<Point>, pos: Point, before: set<Point>, after: set<Point>,
                   pointsBefore: set<Point>, pointsAfter: set<Point>)
    requires visited + {pos} <= before <= after
    requires pointsBefore == p0 + (before - visited - {pos})
    requires pointsAfter == pointsBefore + (after - before)
    ensures pointsAfter == p0 + (after - visited - {pos})
  {
    assert after - visited - {pos} == (before - visited - {pos}) + (after - before);
  }

  /** Visiting one more cell of the map leaves fewer unvisited ones. */
  lemma Shrinks(g: Map, visited: set<Point>, more: set<Point>, p: Point)
    requires p in Cells(g) && p !in visited && visited + {p} <= more
    ensures |Cells(g) - more| < |Cells(g) - visited|
  {
    assert Cells(g) - more <= (Cells(g) - visited) - {p};
    SubsetCardinality(Cells(g) - more, (Cells(g) - visited) - {p});
  }

  /** `build_region`: a recursive flood fill from `pos`. A position off
      the map, already visited or with another letter changes nothing;
      otherwise it is visited, added to the region with its fence length,
      widens the box, and the fill continues in the four directions. The
      cells it visits are exactly the plots it adds, all of the region's
      letter, and together they are closed under same-letter neighbours. */
  method BuildRegion(region: Region, pos: Point, visited: set<Point>, g: Map)
    returns (visited': set<Point>)
    requires region.Valid(g) && region.points <= visited
    modifies region
    decreases |Cells(g) - visited|, 1
    ensures region.Valid(g)
    ensures visited <= visited'
    ensures region.points == old(region.points) + (visited' - visited)
    ensures region.name == old(region.name) && region.sides == old(region.sides)
    ensures !Accepts(g, visited, pos, region.name) ==> visited' == visited && unchanged(region)
    ensures Accepts(g, visited, pos, region.name) ==> pos in visited'
    ensures Closed(g, region.name, visited' - visited, visited')
  {
    if OutOfBounds(g, pos) || pos in visited || Plant(g, pos) != region.name {
      return visited;
    }
    region.Take(pos, g);
    CellsInBounds(g, pos);
    visited' := VisitNeighbours(region, pos, visited, g);
  }

  /** The `for_each` of `build_region`: the fill continued from the four
      neighbours of the plot just taken, in the order of `Directions`. */
  method VisitNeighbours(region: Region, pos: Point, visited: set<Point>, g: Map)
    returns (visited': set<Point>)
    requires region.Valid(g) && region.points <= visited + {pos}
    requires pos in region.points && pos in Cells(g) && pos !in visited
    modifies region
    decreases |Cells(g) - visited|, 0
    ensures region.Valid(g)
    ensures visited + {pos} <= visited'
    ensures region.points == old(region.points) + (visited' - visited - {pos})
    ensures region.name == old(region.name) && region.sides == old(region.sides)
    ensures Closed(g, region.name, visited' - visited, visited')
  {
    visited' := visited + {pos};
    for i := 0 to 4
      invariant region.Valid(g)
      invariant visited + {pos} <= visited'
      invariant region.points == old(region.points) + (visited' - visited - {pos})
      invariant region.name == old(region.name) && region.sides == old(region.sides)
      invariant Closed(g, region.name, visited' - visited - {pos}, visited')
      invariant NeighboursIn(g, region.name, pos, i, visited')
    {
      Shrinks(g, visited, visited', pos);
      ghost var before, pointsBefore := visited', region.points;
      visited' := BuildRegion(region, Neighbour(pos, i), visited', g);
      PointsGrow(old(region.points), visited, pos, before, visited', pointsBefore, region.points);
      ClosedGrows(g, region.name, visited, pos, before, visited');
      NeighboursInStep(g, region.name, pos, i, before, visited');
    }
    ClosedSeed(g, region.name, visited, pos, visited');
  }

  // ---------------------------------------------------------------
  // Splitting the map into regions

  /** The direction opposite to direction `i`. */
  function Opposite(i: nat): (j: nat)
    requires i < 4
    ensures j < 4
  {
    [1, 0, 3, 2][i]
  }

  lemma NeighbourBack(p: Point, i: nat)
    requires i < 4
    ensures Neighbour(Neighbour(p, i), Opposite(i)) == p
  {
  }

  /** The cells of `cells` are on the map, and every same-letter
      neighbour on the map of one of them is in `cells` too. */
  ghost predicate SameLetterClosed(g: Map, cells: set<Point>) {
    forall q :: q in cells ==> !OutOfBounds(g, q) && AllJoin(g, Plant(g, q), q, cells)
  }

  /** Membership in a larger set keeps the neighbour facts. */
  lemma AllJoinGrows(g: Map, name: char, q: Point, within: set<Point>, larger: set<Point>)
    requires AllJoin(g, name, q, within) && within <= larger
    ensures AllJoin(g, name, q, larger)
  {
  }

  /** A fill of `name` that starts beside a closed set of visited cells
      gathers a set closed on its own, and the visited cells stay
      closed. */
  lemma NewRegionClosed(g: Map, name: char, visited: set<Point>, visited': set<Point>)
    requires SameLetterClosed(g, visited) && visited <= visited'
    requires forall q :: q in visited' - visited ==> !OutOfBounds(g, q) && Plant(g, q) == name
    requires Closed(g, name, visited' - visited, visited')
    ensures Closed(g, name, visited' - visited, visited' - visited)
    ensures SameLetterClosed(g, visited')
  {
    forall q | q in visited' - visited
      ensures AllJoin(g, name, q, visited' - visited)
    {
      forall i | 0 <= i < 4
        ensures Joins(g, name, Neighbour(q, i), visited' - visited)
      {
        var n := Neighbour(q, i);
        if n in visited && !OutOfBounds(g, n) && Plant(g, n) == name {
          NeighbourBack(q, i);
        }
      }
    }
    forall q | q in visited'
      ensures !OutOfBounds(g, q) && AllJoin(g, Plant(g, q), q, visited')
    {
      if q in visited {
        AllJoinGrows(g, Plant(g, q), q, visited, visited');
      }
    }
  }

  /** A set holding exactly the positions on the map is `Cells`. */
  lemma AllCells(g: Map, cells: set<Point>)
    requires forall p :: p in cells ==> !OutOfBounds(g, p)
    requires forall a, b :: 0 <= b < |g| && 0 <= a < |g[0]| ==> (a, b) in cells
    ensures cells == Cells(g)
  {
    forall p ensures p in cells <==> p in Cells(g) {
      CellsInBounds(g, p);
      if !OutOfBounds(g, p) {
        assert p == (p.0, p.1);
      }
    }
  }

  /** `owner` names, for every cell of `cells`, the one part of `parts`
      holding it; the parts are nonempty and hold nothing else. So the
      parts are pairwise disjoint and together make up `cells`. */
  ghost predicate Partitioned(parts: seq<set<Point>>, cells: set<Point>, owner: map<Point, nat>) {
    && owner.Keys == cells
    && (forall k :: 0 <= k < |parts| ==> parts[k] != {})
    && (forall p :: p in owner ==> owner[p] < |parts| && p in parts[owner[p]])
    && (forall k, p :: 0 <= k < |parts| && p in parts[k] ==> p in owner && owner[p] == k)
  }

  /** `owner` with every position of `part` assigned to part `k`. */
  ghost function Assign(owner: map<Point, nat>, part: set<Point>, k: nat): (owner': map<Point, nat>)
    ensures owner'.Keys == owner.Keys + part
    ensures forall p :: p in owner' ==> owner'[p] == if p in part then k else owner[p]
  {
    owner + map p | p in part :: k
  }

  /** The cells a fill added to `cells`, when there are some, extend a
      partition of `cells` to one of `after`. */
  lemma PartitionAdd(parts: seq<set<Point>>, cells: set<Point>, owner: map<Point, nat>, after: set<Point>)
    requires Partitioned(parts, cells, owner) && cells <= after && after - cells != {}
    ensures Partitioned(parts + [after - cells], after, Assign(owner, after - cells, |parts|))
  {
    var part := after - cells;
    var parts', owner' := parts + [part], Assign(owner, part, |parts|);
    assert owner'.Keys == after;
    forall k, p | 0 <= k < |parts'| && p in parts'[k]
      ensures p in owner' && owner'[p] == k
    {
      if k < |parts| {
        assert p in owner && p !in part;
      }
    }
  }

  /** Parts of a partition are disjoint. */
  lemma PartsDisjoint(parts: seq<set<Point>>, cells: set<Point>, owner: map<Point, nat>, j: nat, k: nat)
    requires Partitioned(parts, cells, owner) && j < k < |parts|
    ensures parts[j] !! parts[k]
  {
    forall p | p in parts[j] ensures p !in parts[k] {
      assert p in owner && owner[p] == j;
    }
  }

  /** The regions found so far, with `parts` their points: each valid,
      with no sides counted yet, and closed under same-letter
      neighbours. */
  ghost predicate RegionsFound(g: Map, built: seq<Region>, parts: seq<set<Point>>)
    reads built
  {
    && |parts| == |built|
    && forall k :: 0 <= k < |built| ==> Found(g, built[k], parts[k])
  }

  /** `region` is valid with points `part`, has no sides counted yet and
      is closed under same-letter neighbours. */
  ghost predicate Found(g: Map, region: Region, part: set<Point>)
    reads region
  {
    && part == region.points && region.Valid(g) && region.sides == 0
    && Closed(g, region.name, part, part)
  }

  lemma RegionsFoundAdd(g: Map, built: seq<Region>, parts: seq<set<Point>>, region: Region)
    requires RegionsFound(g, built, parts)
    requires region.Valid(g) && region.sides == 0 && Closed(g, region.name, region.points, region.points)
    ensures RegionsFound(g, built + [region], parts + [region.points])
  {
  }

  /** One region of the scan: a fresh region seeded at an unvisited cell
      with the cell's own letter, filled from there. The seed is always
      taken, so the region is not empty. */
  method NewRegion(g: Map, pos: Point, visited: set<Point>) returns (region: Region, visited': set<Point>)
    requires !OutOfBounds(g, pos) && pos !in visited && SameLetterClosed(g, visited)
    ensures fresh(region)
    ensures region.Valid(g) && region.sides == 0 && region.name == Plant(g, pos)
    ensures region.points == visited' - visited && pos in region.points
    ensures visited <= visited' && SameLetterClosed(g, visited')
    ensures Closed(g, region.name, region.points, region.points)
  {
    region := new Region(g[pos.1][pos.0], pos);
    visited' := BuildRegion(region, pos, visited, g);
    NewRegionClosed(g, region.name, visited, visited');
  }

  /** One step of the scan: the unvisited cell `pos` seeds a new region,
      whose points join the partition. */
  method Discover(g: Map, built: seq<Region>, ghost parts: seq<set<Point>>, ghost owner: map<Point, nat>,
                  visited: set<Point>, pos: Point)
    returns (built': seq<Region>, ghost parts': seq<set<Point>>, ghost owner': map<Point, nat>, visited': set<Point>)
    requires RegionsFound(g, built, parts) && Partitioned(parts, visited, owner) && SameLetterClosed(g, visited)
    requires !OutOfBounds(g, pos) && pos !in visited
    ensures RegionsFound(g, built', parts') && Partitioned(parts', visited', owner') && SameLetterClosed(g, visited')
    ensures visited <= visited' && pos in visited'
    ensures |built'| == |built| + 1 && built'[..|built|] == built
  {
    var region;
    region, visited' := NewRegion(g, pos, visited);
    PartitionAdd(parts, visited, owner, visited');
    RegionsFoundAdd(g, built, parts, region);
    built', parts', owner' := built + [region], parts + [region.points], Assign(owner, region.points, |parts|);
  }

  /** One row of the scan: every cell of row `y` ends up visited, each
      unvisited one seeding a region. */
  method ScanRow(g: Map, y: nat, built: seq<Region>, ghost parts: seq<set<Point>>, ghost owner: map<Point, nat>,
                 visited: set<Point>)
    returns (built': seq<Region>, ghost parts': seq<set<Point>>, ghost owner': map<Point, nat>, visited': set<Point>)
    requires y < |g|
    requires RegionsFound(g, built, parts) && Partitioned(parts, visited, owner) && SameLetterClosed(g, visited)
    ensures RegionsFound(g, built', parts') && Partitioned(parts', visited', owner') && SameLetterClosed(g, visited')
    ensures visited <= visited'
    ensures forall a :: 0 <= a < |g[0]| ==> (a, y) in visited'
  {
    built', parts', owner', visited' := built, parts, owner, visited;
    for x := 0 to |g[y]|
      invariant RegionsFound(g, built', parts') && Partitioned(parts', visited', owner') && SameLetterClosed(g, visited')
      invariant visited <= visited'
      invariant forall a :: 0 <= a < x ==> (a, y) in visited'
    {
      ghost var before := visited';
      if (x, y) !in visited' {
        built', parts', owner', visited' := Discover(g, built', parts', owner', visited', (x, y));
      }
      forall a | 0 <= a < x + 1 ensures (a, y) in visited' {
        if a < x {
          assert (a, y) in before;
        }
      }
    }
    assert |g[y]| == |g[0]|;
  }

  /** The flood-fill half of `parse_input`: scanning the map row by row,
      every cell not yet visited seeds a new region of its own letter.
      The points of the regions found partition the map, and each region
      is valid and closed under same-letter neighbours. */
  method FindRegions(g: Map) returns (built: seq<Region>, ghost parts: seq<set<Point>>, ghost owner: map<Point, nat>)
    ensures RegionsFound(g, built, parts)
    ensures Partitioned(parts, Cells(g), owner)
  {
    var visited: set<Point> := {};
    parts, owner, built := [], map[], [];
    for y := 0 to |g|
      invariant RegionsFound(g, built, parts)
      invariant Partitioned(parts, visited, owner) && SameLetterClosed(g, visited)
      invariant forall a, b :: 0 <= b < y && 0 <= a < |g[0]| ==> (a, b) in visited
    {
      ghost var before := visited;
      built, parts, owner, visited := ScanRow(g, y, built, parts, owner, visited);
      forall a, b | 0 <= b < y + 1 && 0 <= a < |g[0]| ensures (a, b) in visited {
        if b < y {
          assert (a, b) in before;
        }
      }
    }
    AllCells(g, visited);
  }

  // ---------------------------------------------------------------
  // Sides

  /** `is_side`: a fence runs along the `d` side of the plot `pos`. */
  predicate IsSide(g: Map, pos: Point, d: Point)
    requires !OutOfBounds(g, pos)
  {
    Fenced(g, AddPoints(pos, d), Plant(g, pos))
  }

  /** The plot `p` belongs to `pts` and has a fence on its `d` side. */
  predicate Faces(g: Map, pts: set<Point>, p: Point, d: Point) {
    p in pts && !OutOfBounds(g, p) && IsSide(g, p, d)
  }

  /** 1 when a side facing `d` starts at `p`: `p` faces `d` and its
      neighbour one step `back` along the side does not. */
  function StartsAt(g: Map, pts: set<Point>, p: Point, d: Point, back: Point): nat {
    if Faces(g, pts, p, d) && !Faces(g, pts, AddPoints(p, back), d) then 1 else 0
  }

  /** The vertical sides starting at `p`: right and left fences, whose
      runs are followed downwards. */
  function VerticalStarts(g: Map, pts: set<Point>, p: Point): nat {
    StartsAt(g, pts, p, Right, Over) + StartsAt(g, pts, p, Left, Over)
  }

  /** The horizontal sides starting at `p`: fences over and under it,
      whose runs are followed rightwards. */
  function HorizontalStarts(g: Map, pts: set<Point>, p: Point): nat {
    StartsAt(g, pts, p, Over, Left) + StartsAt(g, pts, p, Under, Left)
  }

  ghost function Vertical(g: Map, pts: set<Point>): Point -> nat {
    p => VerticalStarts(g, pts, p)
  }

  ghost function Horizontal(g: Map, pts: set<Point>): Point -> nat {
    p => HorizontalStarts(g, pts, p)
  }

  ghost function AllStarts(g: Map, pts: set<Point>): Point -> nat {
    p => VerticalStarts(g, pts, p) + HorizontalStarts(g, pts, p)
  }

  /** The number of straight sides of the plots `pts`: each maximal run
      of fence along one side of consecutive plots counts once, at the
      plot where it starts. */
  ghost function Sides(g: Map, pts: set<Point>): nat {
    SetSum(pts, AllStarts(g, pts))
  }

  /** Position `i` of line `o` of a scan: down column `o` for the
      vertical pass, along row `o` for the horizontal one. */
  function At(columns: bool, o: int, i: int): Point {
    if columns then (o, i) else (i, o)
  }

  /** The sum of `f` over positions `i0` .. `i1 - 1` of line `o`. */
  ghost function LineSum(f: Point -> nat, columns: bool, o: int, i0: int, i1: int): nat
    decreases i1 - i0
  {
    if i1 <= i0 then 0 else LineSum(f, columns, o, i0, i1 - 1) + f(At(columns, o, i1 - 1))
  }

  /** The sum of `f` over lines `o0` .. `o1 - 1`, each from `i0` to `i1 - 1`. */
  ghost function ScanSum(f: Point -> nat, columns: bool, o0: int, o1: int, i0: int, i1: int): nat
    decreases o1 - o0
  {
    if o1 <= o0 then 0 else ScanSum(f, columns, o0, o1 - 1, i0, i1) + LineSum(f, columns, o1 - 1, i0, i1)
  }

  ghost function LineSet(columns: bool, o: int, i0: int, i1: int): set<Point> {
    set i | i0 <= i < i1 :: At(columns, o, i)
  }

  ghost function ScanSet(columns: bool, o0: int, o1: int, i0: int, i1: int): set<Point> {
    set o, i | o0 <= o < o1 && i0 <= i < i1 :: At(columns, o, i)
  }

  /** Summing along a line is summing over its positions. */
  lemma {:induction false} LineSumIsSetSum(f: Point -> nat, columns: bool, o: int, i0: int, i1: int)
    ensures LineSum(f, columns, o, i0, i1) == SetSum(LineSet(columns, o, i0, i1), f)
    decreases i1 - i0
  {
    if i1 <= i0 {
      assert LineSet(columns, o, i0, i1) == {};
    } else {
      LineSumIsSetSum(f, columns, o, i0, i1 - 1);
      var prev, last := LineSet(columns, o, i0, i1 - 1), At(columns, o, i1 - 1);
      assert LineSet(columns, o, i0, i1) == prev + {last};
      SetSumAdd(prev, f, last);
    }
  }

  /** Summing line by line is summing over the positions of the box. */
  lemma {:induction false} ScanSumIsSetSum(f: Point -> nat, columns: bool, o0: int, o1: int, i0: int, i1: int)
    ensures ScanSum(f, columns, o0, o1, i0, i1) == SetSum(ScanSet(columns, o0, o1, i0, i1), f)
    decreases o1 - o0
  {
    if o1 <= o0 {
      assert ScanSet(columns, o0, o1, i0, i1) == {};
    } else {
      ScanSumIsSetSum(f, columns, o0, o1 - 1, i0, i1);
      LineSumIsSetSum(f, columns, o1 - 1, i0, i1);
      var prev, line := ScanSet(columns, o0, o1 - 1, i0, i1), LineSet(columns, o1 - 1, i0, i1);
      assert ScanSet(columns, o0, o1, i0, i1) == prev + line;
      SetSumUnion(prev, line, f);
    }
  }

  /** Both passes over the box `lo` .. `hi` of the plots `pts` together
      count the sides of `pts`: positions of the box outside `pts` start
      no side. */
  lemma ScansCountSides(g: Map, pts: set<Point>, lo: Point, hi: Point)
    requires forall p :: p in pts ==> InBox(lo, hi, p)
    ensures ScanSum(Vertical(g, pts), true, lo.0, hi.0 + 1, lo.1, hi.1 + 1)
      + ScanSum(Horizontal(g, pts), false, lo.1, hi.1 + 1, lo.0, hi.0 + 1) == Sides(g, pts)
  {
    var columns, rows := ScanSet(true, lo.0, hi.0 + 1, lo.1, hi.1 + 1), ScanSet(false, lo.1, hi.1 + 1, lo.0, hi.0 + 1);
    ScanSumIsSetSum(Vertical(g, pts), true, lo.0, hi.0 + 1, lo.1, hi.1 + 1);
    ScanSumIsSetSum(Horizontal(g, pts), false, lo.1, hi.1 + 1, lo.0, hi.0 + 1);
    forall p | p in pts
      ensures p in columns && p in rows
    {
      assert p == At(true, p.0, p.1) && p == At(false, p.1, p.0);
    }
    SetSumWithin(columns, pts, Vertical(g, pts));
    SetSumWithin(rows, pts, Horizontal(g, pts));
    SetSumPlus(pts, Vertical(g, pts), Horizontal(g, pts), AllStarts(g, pts));
  }

  /** The plots `pts` are on the map, inside the box `start` .. `end`. */
  ghost predicate Boxed(g: Map, pts: set<Point>, start: Point, end: Point) {
    forall p :: p in pts ==> !OutOfBounds(g, p) && InBox(start, end, p)
  }

  /** `count_sides`: a pass down each column of the region's box counts
      the right and left fences where a run of them starts, a pass along
      each row does the same for the fences over and under the plots.
      The count is the number of sides of the region. */
  method CountSides(region: Region, g: Map) returns (sides: nat)
    requires region.Valid(g)
    ensures sides == Sides(g, region.points)
  {
    var pts, start, end := region.points, region.start, region.end;
    ScansCountSides(g, pts, start, end);
    var vertical := CountVerticalSides(g, pts, start, end);
    var horizontal := CountHorizontalSides(g, pts, start, end);
    sides := vertical + horizontal;
  }

  /** The first pass of `count_sides`, column by column across the box. */
  method CountVerticalSides(g: Map, pts: set<Point>, start: Point, end: Point) returns (sides: nat)
    requires Boxed(g, pts, start, end)
    ensures sides == ScanSum(Vertical(g, pts), true, start.0, end.0 + 1, start.1, end.1 + 1)
  {
    sides := 0;
    var x := start.0;
    while x <= end.0
      invariant start.0 <= x && (x <= end.0 + 1 || x == start.0)
      invariant sides == ScanSum(Vertical(g, pts), true, start.0, x, start.1, end.1 + 1)
    {
      var column := ColumnSides(g, pts, start, end, x);
      sides := sides + column;
      x := x + 1;
    }
  }

  /** One column of the first pass, top to bottom: a right (left) fence
      starts a side when the plot above has none; `right` and `left`
      remember whether the plot above had one. */
  method ColumnSides(g: Map, pts: set<Point>, start: Point, end: Point, x: int) returns (sides: nat)
    requires Boxed(g, pts, start, end)
    ensures sides == LineSum(Vertical(g, pts), true, x, start.1, end.1 + 1)
  {
    ghost var vertical := Vertical(g, pts);
    sides := 0;
    var right, left := false, false;
    var y := start.1;
    while y <= end.1
      invariant start.1 <= y && (y <= end.1 + 1 || y == start.1)
      invariant sides == LineSum(vertical, true, x, start.1, y)
      invariant right == Faces(g, pts, (x, y - 1), Right) && left == Faces(g, pts, (x, y - 1), Left)
    {
      var pos := (x, y);
      ghost var before := sides;
      assert AddPoints(pos, Over) == (x, y - 1);
      if pos !in pts {
        right, left := false, false;
      } else {
        if IsSide(g, pos, Right) {
          if !right {
            sides := sides + 1;
            right := true;
          }
        } else {
          right := false;
        }
        if IsSide(g, pos, Left) {
          if !left {
            sides := sides + 1;
            left := true;
          }
        } else {
          left := false;
        }
      }
      assert sides == before + VerticalStarts(g, pts, pos);
      y := y + 1;
    }
  }

  /** The second pass of `count_sides`, row by row down the box. */
  method CountHorizontalSides(g: Map, pts: set<Point>, start: Point, end: Point) returns (sides: nat)
    requires Boxed(g, pts, start, end)
    ensures sides == ScanSum(Horizontal(g, pts), false, start.1, end.1 + 1, start.0, end.0 + 1)
  {
    sides := 0;
    var y := start.1;
    while y <= end.1
      invariant start.1 <= y && (y <= end.1 + 1 || y == start.1)
      invariant sides == ScanSum(Horizontal(g, pts), false, start.1, y, start.0, end.0 + 1)
    {
      var row := RowSides(g, pts, start, end, y);
      sides := sides + row;
      y := y + 1;
    }
  }

  /** One row of the second pass, left to right: a fence over (under) a
      plot starts a side when the plot to its left has none; `over` and
      `under` remember whether that plot had one. */
  method RowSides(g: Map, pts: set<Point>, start: Point, end: Point, y: int) returns (sides: nat)
    requires Boxed(g, pts, start, end)
    ensures sides == LineSum(Horizontal(g, pts), false, y, start.0, end.0 + 1)
  {
    ghost var horizontal := Horizontal(g, pts);
    sides := 0;
    var over, under := false, false;
    var x := start.0;
    while x <= end.0
      invariant start.0 <= x && (x <= end.0 + 1 || x == start.0)
      invariant sides == LineSum(horizontal, false, y, start.0, x)
      invariant over == Faces(g, pts, (x - 1, y), Over) && under == Faces(g, pts, (x - 1, y), Under)
    {
      var pos := (x, y);
      ghost var before := sides;
      assert AddPoints(pos, Left) == (x - 1, y);
      if pos !in pts {
        over, under := false, false;
      } else {
        if IsSide(g, pos, Over) {
          if !over {
            sides := sides + 1;
            over := true;
          }
        } else {
          over := false;
        }
        if IsSide(g, pos, Under) {
          if !under {
            sides := sides + 1;
            under := true;
          }
        } else {
          under := false;
        }
      }
      assert sides == before + HorizontalStarts(g, pts, pos);
      x := x + 1;
    }
  }

  /** The four fences of a plot, by direction, make up its perimeter. */
  lemma PerimeterByDirection(g: Map, p: Point)
    requires !OutOfBounds(g, p)
    ensures PerimeterForPlot(g, p, Plant(g, p))
      == (if IsSide(g, p, Over) then 1 else 0) + (if IsSide(g, p, Under) then 1 else 0)
       + (if IsSide(g, p, Right) then 1 else 0) + (if IsSide(g, p, Left) then 1 else 0)
  {
    PerimeterCountsFences(g, p, Plant(g, p));
    FencedFour(g, Neighbours(p), Plant(g, p));
  }

  /** A side starts only at a fenced edge, so a region has at most as
      many sides as fence segments. */
  lemma SidesAtMostPerimeter(g: Map, name: char, pts: set<Point>)
    requires forall p :: p in pts ==> !OutOfBounds(g, p) && Plant(g, p) == name
    ensures Sides(g, pts) <= Fences(g, name, pts)
  {
    forall p | p in pts
      ensures AllStarts(g, pts)(p) <= PlotFences(g, name)(p)
    {
      PerimeterByDirection(g, p);
    }
    SetSumMono(pts, AllStarts(g, pts), PlotFences(g, name));
  }

  /** A region of a single plot has one side per fence. */
  lemma LoneSides(g: Map, p: Point)
    requires !OutOfBounds(g, p)
    ensures Sides(g, {p}) == PerimeterForPlot(g, p, Plant(g, p))
  {
    SetSumAdd({}, AllStarts(g, {p}), p);
    assert {} + {p} == {p};
    PerimeterByDirection(g, p);
  }

  /** Region D of the example garden is the single plot (3, 1): four
      fences and four sides, so it costs 4 under both prices. */
  lemma ExampleLoneRegion()
    ensures IsRectangular(["AAAA", "BBCD", "BBCC", "EEEC"])
    ensures Sides(["AAAA", "BBCD", "BBCC", "EEEC"], {(3, 1)}) == 4
  {
    var g: Map := ["AAAA", "BBCD", "BBCC", "EEEC"];
    LoneSides(g, (3, 1));
    PerimeterByDirection(g, (3, 1));
    assert IsSide(g, (3, 1), Over) && IsSide(g, (3, 1), Under);
    assert IsSide(g, (3, 1), Right) && IsSide(g, (3, 1), Left);
  }

  // ---------------------------------------------------------------
  // Parsing and the two answers

  /** `copy` carries every field of `r` except the side count. */
  ghost predicate CopiedFrom(copy: Region, r: Region)
    reads copy, r
  {
    && copy.name == r.name && copy.perimeter == r.perimeter && copy.area == r.area
    && copy.start == r.start && copy.end == r.end && copy.points == r.points
  }

  /** The second half of `parse_input`: each region found is copied with
      its side count filled in. */
  method WithSides(built: seq<Region>, g: Map) returns (regions: seq<Region>)
    requires forall k :: 0 <= k < |built| ==> built[k].Valid(g)
    ensures |regions| == |built|
    ensures forall k :: 0 <= k < |regions| ==>
      CopiedFrom(regions[k], built[k]) && regions[k].sides == Sides(g, built[k].points)
  {
    regions := [];
    for k := 0 to |built|
      invariant |regions| == k
      invariant forall j :: 0 <= j < k ==>
        CopiedFrom(regions[j], built[j]) && regions[j].sides == Sides(g, built[j].points)
    {
      var sides := CountSides(built[k], g);
      var region := new Region.Copy(built[k], sides);
      regions := regions + [region];
    }
  }

  /** What `parse_input` promises of the regions: each is valid, nonempty,
      closed under same-letter neighbours and has its sides counted; they
      are pairwise disjoint and together cover the map. */
  ghost predicate RegionsOf(g: Map, regions: seq<Region>)
    reads regions
  {
    && (forall k :: 0 <= k < |regions| ==> RegionOf(g, regions[k]))
    && (forall j, k :: 0 <= j < k < |regions| ==> regions[j].points !! regions[k].points)
    && (forall p :: p in Cells(g) <==> exists k :: 0 <= k < |regions| && p in regions[k].points)
  }

  ghost predicate RegionOf(g: Map, region: Region)
    reads region
  {
    && region.Valid(g) && region.points != {}
    && Closed(g, region.name, region.points, region.points)
    && region.sides == Sides(g, region.points)
  }

  /** A partition's parts are disjoint and cover its cells. */
  lemma PartitionCovers(parts: seq<set<Point>>, cells: set<Point>, owner: map<Point, nat>)
    requires Partitioned(parts, cells, owner)
    ensures forall j, k :: 0 <= j < k < |parts| ==> parts[j] !! parts[k]
    ensures forall p :: p in cells <==> exists k :: 0 <= k < |parts| && p in parts[k]
  {
    forall j, k | 0 <= j < k < |parts| ensures parts[j] !! parts[k] {
      PartsDisjoint(parts, cells, owner, j, k);
    }
  }

  /** `parse_input`: the map as lines of plants, and its regions. */
  method ParseInput(input: string) returns (regions: seq<Region>, g: Map)
    requires IsRectangular(Lines(input))
    ensures g == Lines(input)
    ensures RegionsOf(g, regions)
  {
    g := Lines(input);
    var built;
    ghost var parts, owner;
    built, parts, owner := FindRegions(g);
    regions := WithSides(built, g);
    PartitionCovers(parts, Cells(g), owner);
    forall k | 0 <= k < |regions|
      ensures regions[k].points == parts[k] && RegionOf(g, regions[k])
    {
      assert Found(g, built[k], parts[k]);
    }
  }

  /** The price of the regions by fence length: area times the fence
      length of the region's plots, summed. */
  ghost function FencePrice(g: Map, regions: seq<Region>): nat
    reads regions
  {
    if regions == [] then 0
    else
      var r := regions[|regions| - 1];
      FencePrice(g, regions[..|regions| - 1]) + |r.points| * Fences(g, r.name, r.points)
  }

  /** The price of the regions by sides: area times number of sides,
      summed. */
  ghost function SidePrice(g: Map, regions: seq<Region>): nat
    reads regions
  {
    if regions == [] then 0
    else
      var r := regions[|regions| - 1];
      SidePrice(g, regions[..|regions| - 1]) + |r.points| * Sides(g, r.points)
  }

  /** Both prices grow region by region. */
  lemma PriceStep(g: Map, regions: seq<Region>, k: nat)
    requires k < |regions|
    ensures FencePrice(g, regions[..k + 1])
      == FencePrice(g, regions[..k]) + |regions[k].points| * Fences(g, regions[k].name, regions[k].points)
    ensures SidePrice(g, regions[..k + 1]) == SidePrice(g, regions[..k]) + |regions[k].points| * Sides(g, regions[k].points)
  {
    assert regions[..k + 1][..k] == regions[..k];
  }

  /** The bulk discount never costs more: over regions whose plots carry
      their letter, the price by sides is at most the price by fences. */
  lemma {:induction false} SidePriceAtMostFencePrice(g: Map, regions: seq<Region>)
    requires forall k :: 0 <= k < |regions| ==> regions[k].Valid(g)
    ensures SidePrice(g, regions) <= FencePrice(g, regions)
    decreases |regions|
  {
    if regions != [] {
      var front, r := regions[..|regions| - 1], regions[|regions| - 1];
      assert forall k :: 0 <= k < |front| ==> front[k] == regions[k];
      SidePriceAtMostFencePrice(g, front);
      SidesAtMostPerimeter(g, r.name, r.points);
      AreaTimes(|r.points|, Sides(g, r.points), Fences(g, r.name, r.points));
    }
  }

  /** Multiplying by an area keeps an inequality. */
  lemma AreaTimes(area: nat, a: nat, b: nat)
    requires a <= b
    ensures area * a <= area * b
  {
  }

  /** The fold of `part1`: area times perimeter, summed over the
      regions, is their price by fence length. */
  method FencingPrice(regions: seq<Region>, g: Map) returns (total: nat)
    requires forall k :: 0 <= k < |regions| ==> regions[k].Valid(g)
    ensures total == FencePrice(g, regions)
  {
    total := 0;
    for k := 0 to |regions|
      invariant total == FencePrice(g, regions[..k])
    {
      var r := regions[k];
      assert r.area == |r.points| && r.perimeter == Fences(g, r.name, r.points);
      PriceStep(g, regions, k);
      total := total + r.area * r.perimeter;
    }
    assert regions[..|regions|] == regions;
  }

  /** The fold of `part2`: area times number of sides, summed over the
      regions, is their price by sides. */
  method DiscountPrice(regions: seq<Region>, g: Map) returns (total: nat)
    requires forall k :: 0 <= k < |regions| ==> RegionOf(g, regions[k])
    ensures total == SidePrice(g, regions)
  {
    total := 0;
    for k := 0 to |regions|
      invariant total == SidePrice(g, regions[..k])
    {
      var r := regions[k];
      assert RegionOf(g, r);
      assert r.area == |r.points| && r.sides == Sides(g, r.points);
      PriceStep(g, regions, k);
      total := total + r.area * r.sides;
    }
    assert regions[..|regions|] == regions;
  }

  /** `part1`: the fencing price of the garden. */
  method Part1(input: string) returns (total: nat, ghost regions: seq<Region>, ghost g: Map)
    requires IsRectangular(Lines(input))
    ensures g == Lines(input) && RegionsOf(g, regions)
    ensures total == FencePrice(g, regions)
  {
    var found, map' := ParseInput(input);
    regions, g := found, map';
    total := FencingPrice(found, map');
  }

  /** `part2`: the bulk-discount price of the garden. */
  method Part2(input: string) returns (total: nat, ghost regions: seq<Region>, ghost g: Map)
    requires IsRectangular(Lines(input))
    ensures g == Lines(input) && RegionsOf(g, regions)
    ensures total == SidePrice(g, regions)
    ensures total <= FencePrice(g, regions)
  {
    var found, map' := ParseInput(input);
    regions, g := found, map';
    total := DiscountPrice(found, map');
    SidePriceAtMostFencePrice(g, regions);
  }
}
