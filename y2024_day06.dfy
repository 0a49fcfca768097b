/** The guard's patrol over the lab map and the obstacles that trap it in a
    loop (src/years/y2024/day06.rs). */
module GuardPatrol {
  import opened Wrappers
  import opened Text
  import opened Sets
  import opened Grids

  /** Every cell of the input, by position. */
  type Map = map<Point, char>

  datatype Direction = North | East | South | West

  const Directions: set<Direction> := {North, East, South, West}

  /** `turn`: a right turn. */
  function Turn(d: Direction): (r: Direction)
    ensures r != d
  {
    match d
    case North => East
    case East => South
    case South => West
    case West => North
  }

  /** Four right turns face the guard the way it started. */
  lemma FourTurns(d: Direction)
    ensures Turn(Turn(Turn(Turn(d)))) == d
  {
  }

  /** `go_forward`: one unit step; north is towards smaller y. */
  function Forward(d: Direction, p: Point): (q: Point)
    ensures (q.0 - p.0) * (q.0 - p.0) + (q.1 - p.1) * (q.1 - p.1) == 1
  {
    match d
    case North => (p.0, p.1 - 1)
    case East => (p.0 + 1, p.1)
    case South => (p.0, p.1 + 1)
    case West => (p.0 - 1, p.1)
  }

  /** A step forward is undone by a step in the direction two turns away. */
  lemma ForwardAndBack(d: Direction, p: Point)
    ensures Forward(Turn(Turn(d)), Forward(d, p)) == p
  {
  }

  /** `with_obstacle`: the cell `at` becomes '#'; nothing else changes. */
  function WithObstacle(m: Map, at: Point): (r: Map)
    ensures r.Keys == m.Keys + {at} && r[at] == '#'
    ensures forall p :: p in m && p != at ==> r[p] == m[p]
  {
    m[at := '#']
  }

  /** One pass of either loop body: turn right in place when the cell
      ahead is '#', otherwise step forward (possibly off the map). */
  function Step(m: Map, pos: Point, dir: Direction): (r: (Point, Direction))
    ensures r.0 == pos <==> Forward(dir, pos) in m && m[Forward(dir, pos)] == '#'
    ensures r.0 == pos ==> r.1 == Turn(dir)
    ensures r.0 != pos ==> r == (Forward(dir, pos), dir)
  {
    var next := Forward(dir, pos);
    if next in m && m[next] == '#' then (pos, Turn(dir)) else (next, dir)
  }

  /** The positions `get_visited_positions` collects from `pos` facing
      `dir` while the guard is on the map, or `None` when it is still on
      the map after `fuel` passes of the loop. */
  function VisitedWithin(m: Map, pos: Point, dir: Direction, fuel: nat): (r: Option<set<Point>>)
    ensures r.Some? ==> r.value <= m.Keys
    ensures r.Some? ==> (pos in m <==> pos in r.value)
    decreases fuel
  {
    if pos !in m then Some({})
    else if fuel == 0 then None
    else
      var (pos', dir') := Step(m, pos, dir);
      match VisitedWithin(m, pos', dir', fuel - 1)
      case None => None
      case Some(v) => Some({pos} + v)
  }

  /** More fuel never changes a walk that has already left the map. */
  lemma {:induction false} FuelMonotone(m: Map, pos: Point, dir: Direction, fuel: nat, more: nat)
    requires fuel <= more && VisitedWithin(m, pos, dir, fuel).Some?
    ensures VisitedWithin(m, pos, dir, more) == VisitedWithin(m, pos, dir, fuel)
    decreases fuel
  {
    if pos in m {
      var (pos', dir') := Step(m, pos, dir);
      FuelMonotone(m, pos', dir', fuel - 1, more - 1);
    }
  }

  function Combine(seen: set<Point>, rest: Option<set<Point>>): Option<set<Point>> {
    match rest
    case None => None
    case Some(v) => Some(seen + v)
  }

  lemma CombineNothing(o: Option<set<Point>>)
    ensures Combine({}, o) == o
  {
    if o.Some? {
      assert {} + o.value == o.value;
    }
  }

  lemma CombineStep(m: Map, seen: set<Point>, pos: Point, dir: Direction, fuel: nat)
    requires pos in m && fuel > 0
    ensures Combine(seen, VisitedWithin(m, pos, dir, fuel))
      == Combine(seen + {pos}, VisitedWithin(m, Step(m, pos, dir).0, Step(m, pos, dir).1, fuel - 1))
  {
    var rest := VisitedWithin(m, Step(m, pos, dir).0, Step(m, pos, dir).1, fuel - 1);
    if rest.Some? {
      assert seen + ({pos} + rest.value) == seen + {pos} + rest.value;
    }
  }

  /** `get_visited_positions`, with the fuel the model adds to bound its loop. */
  method GetVisitedPositions(m: Map, start: Point, fuel: nat) returns (r: Option<set<Point>>)
    ensures r == VisitedWithin(m, start, North, fuel)
  {
    var pos, dir := start, North;
    var visited: set<Point> := {};
    var left := fuel;
    CombineNothing(VisitedWithin(m, start, North, fuel));
    while pos in m
      invariant Combine(visited, VisitedWithin(m, pos, dir, left)) == VisitedWithin(m, start, North, fuel)
      decreases left
    {
      if left == 0 {
        return None;
      }
      CombineStep(m, visited, pos, dir, left);
      visited := visited + {pos};
      pos, dir := Step(m, pos, dir).0, Step(m, pos, dir).1;
      left := left - 1;
    }
    return Some(visited);
  }

  /** The (position, direction) pairs `is_loop` can record: every position
      it stands on is a key of the map or the start. */
  function TurnStates(m: Map, home: Point): set<(Point, Direction)> {
    set p, d | p in m.Keys + {home} && d in Directions :: (p, d)
  }

  /** `k` lies strictly ahead of `pos` when looking in direction `dir`. */
  predicate OnRay(pos: Point, dir: Direction, k: Point) {
    match dir
    case North => k.0 == pos.0 && k.1 < pos.1
    case East => k.1 == pos.1 && k.0 > pos.0
    case South => k.0 == pos.0 && k.1 > pos.1
    case West => k.1 == pos.1 && k.0 < pos.0
  }

  /** The map cells ahead of the guard. */
  function Ahead(m: Map, pos: Point, dir: Direction): set<Point> {
    set k | k in m.Keys && OnRay(pos, dir, k)
  }

  lemma AheadShrinks(m: Map, pos: Point, dir: Direction)
    requires Forward(dir, pos) in m
    ensures Ahead(m, Forward(dir, pos), dir) < Ahead(m, pos, dir)
  {
    var next := Forward(dir, pos);
    assert next in Ahead(m, pos, dir);
    assert next !in Ahead(m, next, dir);
  }

  lemma TurnStateIn(m: Map, home: Point, pos: Point, dir: Direction)
    requires pos in m.Keys + {home}
    ensures (pos, dir) in TurnStates(m, home)
  {
    assert dir in Directions;
  }

  /** `is_loop` from `pos` facing `dir` with the obstacle hits `recorded`
      so far: false as soon as the cell ahead is off the map, true when an
      obstacle is hit from a recorded (position, direction) pair. It always
      ends: each turn records a new pair, and each step leaves fewer map
      cells ahead. */
  function IsLoopFrom(m: Map, home: Point, pos: Point, dir: Direction,
                      recorded: set<(Point, Direction)>): bool
    requires pos in m.Keys + {home} && recorded <= TurnStates(m, home)
    decreases TurnStates(m, home) - recorded, Ahead(m, pos, dir)
  {
    var next := Forward(dir, pos);
    if next !in m then false
    else if m[next] == '#' then
      if (pos, dir) in recorded then true
      else
        TurnStateIn(m, home, pos, dir);
        IsLoopFrom(m, home, pos, Turn(dir), recorded + {(pos, dir)})
    else
      AheadShrinks(m, pos, dir);
      IsLoopFrom(m, home, next, dir, recorded)
  }

  /** `is_loop` with its `visited` set of obstacle hits. */
  method IsLoop(m: Map, start: Point) returns (b: bool)
    ensures b == IsLoopFrom(m, start, start, North, {})
  {
    var pos, dir := start, North;
    var visited: set<(Point, Direction)> := {};
    while true
      invariant pos in m.Keys + {start} && visited <= TurnStates(m, start)
      invariant IsLoopFrom(m, start, pos, dir, visited) == IsLoopFrom(m, start, start, North, {})
      decreases TurnStates(m, start) - visited, Ahead(m, pos, dir)
    {
      var next := Forward(dir, pos);
      if next !in m {
        return false;
      }
      if m[next] == '#' {
        if (pos, dir) in visited {
          return true;
        }
        TurnStateIn(m, start, pos, dir);
        visited := visited + {(pos, dir)};
        dir := Turn(dir);
      } else {
        AheadShrinks(m, pos, dir);
        pos := next;
      }
    }
  }

  /** When `is_loop` answers false, the patrol walk from the same place
      leaves the map: some amount of fuel lets `get_visited_positions`
      finish. */
  lemma {:induction false} NoLoopLeavesMap(m: Map, home: Point, pos: Point, dir: Direction,
                                           recorded: set<(Point, Direction)>)
    requires pos in m.Keys + {home} && recorded <= TurnStates(m, home)
    requires !IsLoopFrom(m, home, pos, dir, recorded)
    ensures exists fuel: nat :: VisitedWithin(m, pos, dir, fuel).Some?
    decreases TurnStates(m, home) - recorded, Ahead(m, pos, dir)
  {
    if pos !in m {
      assert VisitedWithin(m, pos, dir, 0).Some?;
    } else {
      var next := Forward(dir, pos);
      if next !in m {
        assert VisitedWithin(m, next, dir, 0).Some?;
        assert VisitedWithin(m, pos, dir, 1).Some?;
      } else if m[next] == '#' {
        TurnStateIn(m, home, pos, dir);
        NoLoopLeavesMap(m, home, pos, Turn(dir), recorded + {(pos, dir)});
        var fuel: nat :| VisitedWithin(m, pos, Turn(dir), fuel).Some?;
        assert VisitedWithin(m, pos, dir, fuel + 1).Some?;
      } else {
        AheadShrinks(m, pos, dir);
        NoLoopLeavesMap(m, home, next, dir, recorded);
        var fuel: nat :| VisitedWithin(m, next, dir, fuel).Some?;
        assert VisitedWithin(m, pos, dir, fuel + 1).Some?;
      }
    }
  }

  /** The candidate obstacles of part 2 that trap the guard. */
  function LoopObstacles(m: Map, start: Point, candidates: set<Point>): set<Point> {
    set p | p in candidates && IsLoopFrom(WithObstacle(m, p), start, start, North, {})
  }

  /** `solve_part_1` once the map is parsed and the start found. */
  method SolvePart1(m: Map, start: Point, fuel: nat) returns (r: Option<nat>)
    ensures r.None? <==> VisitedWithin(m, start, North, fuel).None?
    ensures r.Some? ==> r.value == |VisitedWithin(m, start, North, fuel).value|
  {
    var visited := GetVisitedPositions(m, start, fuel);
    if visited.None? {
      return None;
    }
    return Some(|visited.value|);
  }

  /** `solve_part_2`: an obstacle on each visited position in turn, counting
      those that make the guard loop. */
  method SolvePart2(m: Map, start: Point, fuel: nat) returns (r: Option<nat>)
    ensures r.None? <==> VisitedWithin(m, start, North, fuel).None?
    ensures r.Some? ==> r.value == |LoopObstacles(m, start, VisitedWithin(m, start, North, fuel).value)|
  {
    var visited := GetVisitedPositions(m, start, fuel);
    if visited.None? {
      return None;
    }
    var count := CountLoops(m, start, visited.value);
    return Some(count);
  }

  /** The filter-and-count over the visited set, in whatever order the
      set is walked. */
  method CountLoops(m: Map, start: Point, candidates: set<Point>) returns (count: nat)
    ensures count == |LoopObstacles(m, start, candidates)|
  {
    count := 0;
    var rest := candidates;
    while rest != {}
      invariant rest <= candidates
      invariant count == |LoopObstacles(m, start, candidates - rest)|
      decreases rest
    {
      var p :| p in rest;
      var loops := IsLoop(WithObstacle(m, p), start);
      LoopObstaclesAdd(m, start, candidates - rest, p);
      assert candidates - (rest - {p}) == (candidates - rest) + {p};
      if loops {
        count := count + 1;
      }
      rest := rest - {p};
    }
    assert candidates - {} == candidates;
  }

  lemma LoopObstaclesAdd(m: Map, start: Point, done: set<Point>, p: Point)
    requires p !in done
    ensures |LoopObstacles(m, start, done + {p})| == |LoopObstacles(m, start, done)|
      + (if IsLoopFrom(WithObstacle(m, p), start, start, North, {}) then 1 else 0)
  {
    if IsLoopFrom(WithObstacle(m, p), start, start, North, {}) {
      assert LoopObstacles(m, start, done + {p}) == LoopObstacles(m, start, done) + {p};
    } else {
      assert LoopObstacles(m, start, done + {p}) == LoopObstacles(m, start, done);
    }
  }

  /** Part 2 never counts more obstacles than part 1 counts positions. */
  lemma LoopObstaclesBound(m: Map, start: Point, candidates: set<Point>)
    ensures |LoopObstacles(m, start, candidates)| <= |candidates|
  {
    assert LoopObstacles(m, start, candidates) <= candidates;
    SubsetCardinality(LoopObstacles(m, start, candidates), candidates);
  }

  /** `get_start_position`: some cell holding '^' (the first one in the
      hash map's order, which the model leaves open); a map without one
      panics. */
  method GetStartPosition(m: Map) returns (r: Option<Point>)
    ensures r.None? <==> forall p :: p in m ==> m[p] != '^'
    ensures r.Some? ==> r.value in m && m[r.value] == '^'
  {
    if p :| p in m && m[p] == '^' {
      return Some(p);
    }
    return None;
  }

  /** `parse_input`: every character of every line put into the map. */
  method ParseInput(input: string) returns (m: Map)
    ensures IsGridOf(m, Lines(input))
  {
    var lines := Lines(input);
    m := map[];
    for y := 0 to |lines|
      invariant forall p :: p in m <==> 0 <= p.1 < y && 0 <= p.0 < |lines[p.1]|
      invariant forall p :: p in m ==> m[p] == lines[p.1][p.0]
    {
      var line := lines[y];
      for x := 0 to |line|
        invariant forall p :: p in m <==> (0 <= p.1 < y && 0 <= p.0 < |lines[p.1]|) || (p.1 == y && 0 <= p.0 < x)
        invariant forall p :: p in m ==> m[p] == lines[p.1][p.0]
      {
        m := m[(x, y) := line[x]];
      }
    }
  }
}
