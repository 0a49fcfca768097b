/** Antennas and their antinodes (src/years/y2024/day08.rs). Both parts
    mark the antinodes they count with '#' in a copy of the grid, so that
    no cell is counted twice. */
module Antinodes {
  import opened Text
  import opened Sets
  import opened Grids

  type Grid = map<Point, char>

  /** Every antenna frequency with its positions, in row-major order. */
  type Antennas = map<char, seq<Point>>

  /** `add_points`. */
  function Add(a: Point, b: Point): Point {
    (a.0 + b.0, a.1 + b.1)
  }

  /** `calculate_antinode_delta`: the step from `other` to `point`. */
  function Delta(point: Point, other: Point): (d: Point)
    ensures Add(d, other) == point
  {
    (point.0 - other.0, point.1 - other.1)
  }

  /** `calculate_antinode`: `point` pushed one more `Delta` away from `other`. */
  function Antinode(point: Point, other: Point): Point {
    Add(Delta(point, other), point)
  }

  /** The antinode is the mirror image of `other` through `point`: the
      two lie on the same line at the same distance on either side. */
  lemma AntinodeReflects(point: Point, other: Point)
    ensures Delta(Antinode(point, other), point) == Delta(point, other)
    ensures Antinode(point, other).0 + other.0 == 2 * point.0
    ensures Antinode(point, other).1 + other.1 == 2 * point.1
    ensures Antinode(Antinode(point, other), point) != point || point == other
  {
  }

  predicate Distinct(s: seq<Point>) {
    forall i, j :: 0 <= i < j < |s| ==> s[i] != s[j]
  }

  /** What `parse_input` hands to both parts: the grid, and for every
      character other than '.', the distinct cells that hold it. */
  ghost predicate WellFormed(grid: Grid, antennas: Antennas) {
    && (forall c :: c in antennas ==> c != '.' && Distinct(antennas[c]))
    && (forall c, p :: c in antennas ==> (p in antennas[c] <==> p in grid && grid[p] == c))
    && (forall p :: p in grid && grid[p] != '.' ==> grid[p] in antennas)
  }

  // ---------------------------------------------------------------
  // Counting by marking

  /** The cells a part counts when it reaches them: part 1 any cell not
      yet '#', part 2 only a cell that is still '.'. */
  predicate Counts(part2: bool, ch: char) {
    if part2 then ch == '.' else ch != '#'
  }

  ghost function Eligible(grid0: Grid, part2: bool): set<Point> {
    set p | p in grid0 && Counts(part2, grid0[p])
  }

  /** The cells whose character the marking has changed. */
  ghost function Changed(grid0: Grid, grid: Grid): set<Point> {
    set p | p in grid0 && p in grid && grid[p] != grid0[p]
  }

  /** The state both parts keep while marking: every eligible cell the
      walk has reached (`seen`) is '#', every other cell is as parsed,
      and `count` exceeds the number of changed cells by `base`. */
  ghost predicate Marked(grid0: Grid, grid: Grid, seen: set<Point>, part2: bool, count: int, base: int) {
    && grid.Keys == grid0.Keys
    && (forall p :: p in grid ==> grid[p] == (if p in seen && Counts(part2, grid0[p]) then '#' else grid0[p]))
    && count == base + |Changed(grid0, grid)|
  }

  /** The changed cells are exactly the eligible cells reached. */
  lemma ChangedAreFound(grid0: Grid, grid: Grid, seen: set<Point>, part2: bool, count: int, base: int)
    requires Marked(grid0, grid, seen, part2, count, base)
    ensures Changed(grid0, grid) == seen * Eligible(grid0, part2)
  {
  }

  /** One `if grid.contains_key(p) && <counts> { insert '#'; += 1 }`: the
      count grows by one exactly when `p` is an eligible cell reached for
      the first time. */
  method Visit(grid: Grid, p: Point, part2: bool, count: nat, ghost grid0: Grid, ghost seen: set<Point>, ghost base: int)
    returns (grid': Grid, count': nat)
    requires Marked(grid0, grid, seen, part2, count, base)
    ensures Marked(grid0, grid', seen + {p}, part2, count', base)
  {
    if p in grid && Counts(part2, grid[p]) {
      assert grid[p] == grid0[p];
      grid', count' := grid[p := '#'], count + 1;
      assert Changed(grid0, grid') == Changed(grid0, grid) + {p};
    } else {
      grid', count' := grid, count;
    }
  }

  // ---------------------------------------------------------------
  // Part 1

  /** The antinodes `points[a]` makes with `points[0..nb)`, in loop order. */
  ghost function RowAntinodes(points: seq<Point>, a: nat, nb: nat): set<Point>
    requires a < |points| && nb <= |points|
  {
    if nb == 0 then {}
    else RowAntinodes(points, a, nb - 1) + (if a != nb - 1 then {Antinode(points[a], points[nb - 1])} else {})
  }

  /** The antinodes of the pairs whose first antenna is in `points[0..na)`. */
  ghost function PrefixAntinodes(points: seq<Point>, na: nat): set<Point>
    requires na <= |points|
  {
    if na == 0 then {} else PrefixAntinodes(points, na - 1) + RowAntinodes(points, na - 1, |points|)
  }

  /** The antinodes of one frequency. */
  ghost function PairAntinodes(points: seq<Point>): set<Point> {
    PrefixAntinodes(points, |points|)
  }

  lemma {:induction false} RowAntinodesMeaning(points: seq<Point>, a: nat, nb: nat, q: Point)
    requires a < |points| && nb <= |points|
    ensures q in RowAntinodes(points, a, nb) <==> exists j :: 0 <= j < nb && j != a && q == Antinode(points[a], points[j])
  {
    if nb > 0 {
      RowAntinodesMeaning(points, a, nb - 1, q);
    }
  }

  lemma {:induction false} PrefixAntinodesMeaning(points: seq<Point>, na: nat, q: Point)
    requires na <= |points|
    ensures q in PrefixAntinodes(points, na)
      <==> exists i, j :: 0 <= i < na && 0 <= j < |points| && i != j && q == Antinode(points[i], points[j])
  {
    if na > 0 {
      PrefixAntinodesMeaning(points, na - 1, q);
      RowAntinodesMeaning(points, na - 1, |points|, q);
      if exists i, j :: 0 <= i < na && 0 <= j < |points| && i != j && q == Antinode(points[i], points[j]) {
        var i, j :| 0 <= i < na && 0 <= j < |points| && i != j && q == Antinode(points[i], points[j]);
        if i == na - 1 {
          assert exists j' :: 0 <= j' < |points| && j' != na - 1 && q == Antinode(points[na - 1], points[j']);
        }
      }
    }
  }

  /** The antinodes of one frequency are those of its ordered pairs of
      distinct antennas. */
  lemma PairAntinodesMeaning(points: seq<Point>, q: Point)
    ensures q in PairAntinodes(points)
      <==> exists i, j :: 0 <= i < |points| && 0 <= j < |points| && i != j && q == Antinode(points[i], points[j])
  {
    PrefixAntinodesMeaning(points, |points|, q);
  }

  /** The inner `for b` loop of part 1 for antenna `a`. */
  method MarkRow(grid: Grid, points: seq<Point>, a: nat, count: nat, ghost grid0: Grid, ghost seen: set<Point>)
    returns (grid': Grid, count': nat, ghost seen': set<Point>)
    requires a < |points|
    requires Marked(grid0, grid, seen, false, count, 0)
    ensures seen' == seen + RowAntinodes(points, a, |points|)
    ensures Marked(grid0, grid', seen', false, count', 0)
  {
    grid', count', seen' := grid, count, seen;
    for b := 0 to |points|
      invariant seen' == seen + RowAntinodes(points, a, b)
      invariant Marked(grid0, grid', seen', false, count', 0)
    {
      grid', count', seen' := MarkPair(grid', points, a, b, count', grid0, seen');
    }
  }

  /** One pass of the inner loop of part 1: skip `a == b`, else visit the
      antinode of the pair. */
  method MarkPair(grid: Grid, points: seq<Point>, a: nat, b: nat, count: nat, ghost grid0: Grid, ghost seen: set<Point>)
    returns (grid': Grid, count': nat, ghost seen': set<Point>)
    requires a < |points| && b < |points|
    requires Marked(grid0, grid, seen, false, count, 0)
    ensures seen' == seen + (if a != b then {Antinode(points[a], points[b])} else {})
    ensures Marked(grid0, grid', seen', false, count', 0)
  {
    grid', count', seen' := grid, count, seen;
    if a != b {
      var antinode := Antinode(points[a], points[b]);
      grid', count' := Visit(grid', antinode, false, count', grid0, seen', 0);
      seen' := seen' + {antinode};
    }
  }

  /** The two `for` loops of part 1 over the antennas of one frequency. */
  method MarkFrequency(grid: Grid, points: seq<Point>, count: nat, ghost grid0: Grid, ghost seen: set<Point>)
    returns (grid': Grid, count': nat, ghost seen': set<Point>)
    requires Marked(grid0, grid, seen, false, count, 0)
    ensures seen' == seen + PairAntinodes(points)
    ensures Marked(grid0, grid', seen', false, count', 0)
  {
    grid', count', seen' := grid, count, seen;
    for a := 0 to |points|
      invariant seen' == seen + PrefixAntinodes(points, a)
      invariant Marked(grid0, grid', seen', false, count', 0)
    {
      grid', count', seen' := MarkRow(grid', points, a, count', grid0, seen');
    }
  }

  /** The antinodes of the frequencies in `keys`. */
  ghost function AntinodesOf(antennas: Antennas, keys: set<char>): set<Point> {
    set c, p | c in keys && c in antennas && p in PairAntinodes(antennas[c]) :: p
  }

  lemma AntinodesOfAdd(antennas: Antennas, keys: set<char>, c: char)
    requires c in antennas
    ensures AntinodesOf(antennas, keys + {c}) == AntinodesOf(antennas, keys) + PairAntinodes(antennas[c])
  {
  }

  /** `solve_part_1` after parsing: the number of distinct antinodes that
      fall on a grid cell not holding '#', whatever order the frequencies
      are visited in. */
  method SolvePart1(grid0: Grid, antennas: Antennas) returns (count: nat)
    ensures count == |AntinodesOf(antennas, antennas.Keys) * Eligible(grid0, false)|
    ensures count <= |grid0|
  {
    var grid := grid0;
    count := 0;
    ghost var seen: set<Point> := {};
    var keys := antennas.Keys;
    while keys != {}
      invariant keys <= antennas.Keys
      invariant seen == AntinodesOf(antennas, antennas.Keys - keys)
      invariant Marked(grid0, grid, seen, false, count, 0)
      decreases keys
    {
      var c :| c in keys;
      grid, count, seen := MarkFrequency(grid, antennas[c], count, grid0, seen);
      AntinodesOfAdd(antennas, antennas.Keys - keys, c);
      assert antennas.Keys - (keys - {c}) == (antennas.Keys - keys) + {c};
      keys := keys - {c};
    }
    assert antennas.Keys - keys == antennas.Keys;
    ChangedAreFound(grid0, grid, seen, false, count, 0);
    SubsetCardinality(Changed(grid0, grid), grid0.Keys);
  }

  // ---------------------------------------------------------------
  // Part 2

  function Dot(p: Point, d: Point): int {
    p.0 * d.0 + p.1 * d.1
  }

  /** The grid cells no nearer than `cur` along `d`; each step of a ray
      walk removes at least `cur` from it. */
  ghost function Beyond(keys: set<Point>, cur: Point, d: Point): set<Point> {
    set k | k in keys && Dot(k, d) >= Dot(cur, d)
  }

  lemma StepMovesAlong(cur: Point, d: Point)
    requires d != (0, 0)
    ensures Dot(Add(d, cur), d) > Dot(cur, d)
  {
    assert Dot(Add(d, cur), d) == Dot(cur, d) + d.0 * d.0 + d.1 * d.1;
    assert d.0 * d.0 + d.1 * d.1 > 0 by {
      if d.0 != 0 {
        assert d.0 * d.0 > 0;
      } else {
        assert d.1 * d.1 > 0;
      }
    }
  }

  lemma BeyondShrinks(keys: set<Point>, cur: Point, d: Point)
    requires d != (0, 0) && cur in keys
    ensures Beyond(keys, Add(d, cur), d) < Beyond(keys, cur, d)
  {
    StepMovesAlong(cur, d);
    assert cur in Beyond(keys, cur, d) && cur !in Beyond(keys, Add(d, cur), d);
  }

  /** The cells a ray walk from `cur` in steps of `d` passes while it is
      on the grid. */
  ghost function Ray(keys: set<Point>, cur: Point, d: Point): set<Point>
    decreases Beyond(keys, cur, d)
  {
    if cur !in keys || d == (0, 0) then {}
    else
      BeyondShrinks(keys, cur, d);
      StepMovesAlong(cur, d);
      {cur} + Ray(keys, Add(d, cur), d)
  }

  /** Every cell of a ray is a grid cell a whole number of steps from
      its start. */
  lemma {:induction false} RayOnLine(keys: set<Point>, cur: Point, d: Point, q: Point)
    requires q in Ray(keys, cur, d)
    ensures q in keys && exists n: nat :: q == (cur.0 + n * d.0, cur.1 + n * d.1)
    decreases Beyond(keys, cur, d)
  {
    assert cur in keys && d != (0, 0);
    if q == cur {
      assert q == (cur.0 + 0 * d.0, cur.1 + 0 * d.1);
    } else {
      BeyondShrinks(keys, cur, d);
      var next := Add(d, cur);
      RayOnLine(keys, next, d, q);
      var n: nat :| q == (next.0 + n * d.0, next.1 + n * d.1);
      assert q == (cur.0 + (n + 1) * d.0, cur.1 + (n + 1) * d.1);
    }
  }

  /** The `while grid.contains_key(current)` walk of part 2. */
  method WalkRay(grid: Grid, start: Point, d: Point, count: nat, ghost grid0: Grid, ghost seen: set<Point>, ghost base: int)
    returns (grid': Grid, count': nat, ghost seen': set<Point>)
    requires d != (0, 0)
    requires Marked(grid0, grid, seen, true, count, base)
    ensures seen' == seen + Ray(grid0.Keys, start, d)
    ensures Marked(grid0, grid', seen', true, count', base)
  {
    grid', count', seen' := grid, count, seen;
    var current := start;
    while current in grid'
      invariant seen' + Ray(grid0.Keys, current, d) == seen + Ray(grid0.Keys, start, d)
      invariant Marked(grid0, grid', seen', true, count', base)
      decreases Beyond(grid0.Keys, current, d)
    {
      BeyondShrinks(grid0.Keys, current, d);
      grid', count' := Visit(grid', current, true, count', grid0, seen', base);
      seen' := seen' + {current};
      current := Add(d, current);
    }
  }

  /** The ray of part 2 for the pair `(i, j)`. */
  ghost function PairRay(keys: set<Point>, points: seq<Point>, i: nat, j: nat): set<Point>
    requires i < |points| && j < |points|
  {
    Ray(keys, Antinode(points[i], points[j]), Delta(points[i], points[j]))
  }

  /** The rays `points[a]` casts away from `points[0..nb)`. */
  ghost function RowLines(keys: set<Point>, points: seq<Point>, a: nat, nb: nat): set<Point>
    requires a < |points| && nb <= |points|
  {
    if nb == 0 then {}
    else RowLines(keys, points, a, nb - 1) + (if a != nb - 1 then PairRay(keys, points, a, nb - 1) else {})
  }

  ghost function PrefixLines(keys: set<Point>, points: seq<Point>, na: nat): set<Point>
    requires na <= |points|
  {
    if na == 0 then {} else PrefixLines(keys, points, na - 1) + RowLines(keys, points, na - 1, |points|)
  }

  /** The lines of one frequency: every ray from an antenna away from
      another one, starting at the part-1 antinode. */
  ghost function PairLines(keys: set<Point>, points: seq<Point>): set<Point> {
    PrefixLines(keys, points, |points|)
  }

  lemma {:induction false} RowLinesMeaning(keys: set<Point>, points: seq<Point>, a: nat, nb: nat, q: Point)
    requires a < |points| && nb <= |points|
    ensures q in RowLines(keys, points, a, nb) <==> exists j :: 0 <= j < nb && j != a && q in PairRay(keys, points, a, j)
  {
    if nb > 0 {
      RowLinesMeaning(keys, points, a, nb - 1, q);
    }
  }

  lemma {:induction false} PrefixLinesMeaning(keys: set<Point>, points: seq<Point>, na: nat, q: Point)
    requires na <= |points|
    ensures q in PrefixLines(keys, points, na)
      <==> exists i, j :: 0 <= i < na && 0 <= j < |points| && i != j && q in PairRay(keys, points, i, j)
  {
    if na > 0 {
      PrefixLinesMeaning(keys, points, na - 1, q);
      RowLinesMeaning(keys, points, na - 1, |points|, q);
      if exists i, j :: 0 <= i < na && 0 <= j < |points| && i != j && q in PairRay(keys, points, i, j) {
        var i, j :| 0 <= i < na && 0 <= j < |points| && i != j && q in PairRay(keys, points, i, j);
        if i == na - 1 {
          assert 0 <= j < |points| && j != na - 1 && q in PairRay(keys, points, na - 1, j);
        }
      }
    }
  }

  /** A cell is on a line of a frequency when it is on the ray of one
      ordered pair of distinct antennas. */
  lemma PairLinesMeaning(keys: set<Point>, points: seq<Point>, q: Point)
    ensures q in PairLines(keys, points)
      <==> exists i, j :: 0 <= i < |points| && 0 <= j < |points| && i != j && q in PairRay(keys, points, i, j)
  {
    PrefixLinesMeaning(keys, points, |points|, q);
  }

  /** The inner `for b` loop of part 2 for antenna `a`. */
  lemma RowLinesNext(keys: set<Point>, points: seq<Point>, a: nat, b: nat, origin: set<Point>, seen: set<Point>)
    requires a < |points| && b < |points|
    requires seen == origin + RowLines(keys, points, a, b)
    ensures seen + (if a != b then PairRay(keys, points, a, b) else {}) == origin + RowLines(keys, points, a, b + 1)
  {
  }

  method WalkRow(grid: Grid, points: seq<Point>, a: nat, count: nat, ghost grid0: Grid, ghost seen: set<Point>, ghost base: int)
    returns (grid': Grid, count': nat, ghost seen': set<Point>)
    requires a < |points| && Distinct(points)
    requires Marked(grid0, grid, seen, true, count, base)
    ensures seen' == seen + RowLines(grid0.Keys, points, a, |points|)
    ensures Marked(grid0, grid', seen', true, count', base)
  {
    grid', count', seen' := grid, count, seen;
    assert seen == seen + RowLines(grid0.Keys, points, a, 0);
    for b := 0 to |points|
      invariant Marked(grid0, grid', seen', true, count', base)
      invariant seen' == seen + RowLines(grid0.Keys, points, a, b)
    {
      grid', count', seen' := WalkPair(grid', points, a, b, count', grid0, seen', base, seen);
    }
  }

  /** One pass of the inner loop of part 2: skip `a == b`, else walk the
      ray of the pair. */
  method WalkPair(grid: Grid, points: seq<Point>, a: nat, b: nat, count: nat, ghost grid0: Grid, ghost seen: set<Point>, ghost base: int,
                  ghost origin: set<Point>)
    returns (grid': Grid, count': nat, ghost seen': set<Point>)
    requires a < |points| && b < |points| && Distinct(points)
    requires seen == origin + RowLines(grid0.Keys, points, a, b)
    requires Marked(grid0, grid, seen, true, count, base)
    ensures seen' == origin + RowLines(grid0.Keys, points, a, b + 1)
    ensures Marked(grid0, grid', seen', true, count', base)
  {
    RowLinesNext(grid0.Keys, points, a, b, origin, seen);
    grid', count', seen' := grid, count, seen;
    if a != b {
      var delta := Delta(points[a], points[b]);
      assert delta != (0, 0);
      grid', count', seen' := WalkRay(grid', Add(delta, points[a]), delta, count', grid0, seen', base);
    }
  }

  /** Part 2's two `for` loops over one frequency: one for each antenna
      itself, then the cells still '.' on its rays. */
  method WalkFrequency(grid: Grid, points: seq<Point>, count: nat, ghost grid0: Grid, ghost seen: set<Point>, ghost base: int)
    returns (grid': Grid, count': nat, ghost seen': set<Point>)
    requires Distinct(points)
    requires Marked(grid0, grid, seen, true, count, base)
    ensures seen' == seen + PairLines(grid0.Keys, points)
    ensures Marked(grid0, grid', seen', true, count', base + |points|)
  {
    grid', count', seen' := grid, count, seen;
    for a := 0 to |points|
      invariant seen' == seen + PrefixLines(grid0.Keys, points, a)
      invariant Marked(grid0, grid', seen', true, count', base + a)
    {
      count' := count' + 1;
      grid', count', seen' := WalkRow(grid', points, a, count', grid0, seen', base + a + 1);
    }
  }

  ghost function LinesOf(keys: set<Point>, antennas: Antennas, freqs: set<char>): set<Point> {
    set c, p | c in freqs && c in antennas && p in PairLines(keys, antennas[c]) :: p
  }

  lemma LinesOfAdd(keys: set<Point>, antennas: Antennas, freqs: set<char>, c: char)
    requires c in antennas
    ensures LinesOf(keys, antennas, freqs + {c}) == LinesOf(keys, antennas, freqs) + PairLines(keys, antennas[c])
  {
  }

  /** The cells holding one of the characters in `freqs`. */
  ghost function CellsOf(grid: Grid, freqs: set<char>): set<Point> {
    set p | p in grid && grid[p] in freqs
  }

  lemma {:induction false} DistinctElements(s: seq<Point>)
    requires Distinct(s)
    ensures |set p | p in s| == |s|
  {
    if s != [] {
      var init := s[..|s| - 1];
      assert Distinct(init);
      DistinctElements(init);
      assert (set p | p in s) == (set p | p in init) + {s[|s| - 1]};
      assert s[|s| - 1] !in init;
    }
  }

  lemma CellsOfAdd(grid: Grid, antennas: Antennas, freqs: set<char>, c: char)
    requires WellFormed(grid, antennas) && c in antennas && c !in freqs
    ensures |CellsOf(grid, freqs + {c})| == |CellsOf(grid, freqs)| + |antennas[c]|
  {
    var own := set p | p in antennas[c];
    assert own == CellsOf(grid, {c});
    DistinctElements(antennas[c]);
    assert CellsOf(grid, freqs + {c}) == CellsOf(grid, freqs) + own;
    assert CellsOf(grid, freqs) * own == {};
  }

  /** The cells not holding '.', which hold the antennas. */
  ghost function AntennaCells(grid: Grid): set<Point> {
    set p | p in grid && grid[p] != '.'
  }

  /** `solve_part_2` after parsing: one for every antenna, plus the
      distinct '.' cells on the rays, whatever order the frequencies are
      visited in. */
  method SolvePart2(grid0: Grid, antennas: Antennas) returns (count: nat)
    requires WellFormed(grid0, antennas)
    ensures count == |AntennaCells(grid0)| + |LinesOf(grid0.Keys, antennas, antennas.Keys) * Eligible(grid0, true)|
    ensures count <= |grid0|
  {
    var grid := grid0;
    count := 0;
    ghost var seen: set<Point> := {};
    var keys := antennas.Keys;
    ghost var done: set<char> := {};
    while keys != {}
      invariant keys <= antennas.Keys && done == antennas.Keys - keys
      invariant seen == LinesOf(grid0.Keys, antennas, done)
      invariant Marked(grid0, grid, seen, true, count, |CellsOf(grid0, done)|)
      decreases keys
    {
      var c :| c in keys;
      FrequencyStep(grid0, antennas, keys, done, c);
      grid, count, seen := WalkFrequency(grid, antennas[c], count, grid0, seen, |CellsOf(grid0, done)|);
      keys, done := keys - {c}, done + {c};
    }
    assert done == antennas.Keys;
    Part2Total(grid0, antennas, grid, seen, count);
  }

  /** One frequency `c` moves from `keys` to `done`. */
  lemma FrequencyStep(grid0: Grid, antennas: Antennas, keys: set<char>, done: set<char>, c: char)
    requires WellFormed(grid0, antennas)
    requires keys <= antennas.Keys && done == antennas.Keys - keys && c in keys
    ensures Distinct(antennas[c])
    ensures done + {c} == antennas.Keys - (keys - {c})
    ensures |CellsOf(grid0, done + {c})| == |CellsOf(grid0, done)| + |antennas[c]|
    ensures LinesOf(grid0.Keys, antennas, done + {c}) == LinesOf(grid0.Keys, antennas, done) + PairLines(grid0.Keys, antennas[c])
  {
    CellsOfAdd(grid0, antennas, done, c);
    LinesOfAdd(grid0.Keys, antennas, done, c);
  }

  /** What the part-2 marking state says once every frequency is done. */
  lemma Part2Total(grid0: Grid, antennas: Antennas, grid: Grid, seen: set<Point>, count: int)
    requires WellFormed(grid0, antennas)
    requires seen == LinesOf(grid0.Keys, antennas, antennas.Keys)
    requires Marked(grid0, grid, seen, true, count, |CellsOf(grid0, antennas.Keys)|)
    ensures count == |AntennaCells(grid0)| + |seen * Eligible(grid0, true)|
    ensures count <= |grid0|
  {
    assert CellsOf(grid0, antennas.Keys) == AntennaCells(grid0);
    ChangedAreFound(grid0, grid, seen, true, count, |CellsOf(grid0, antennas.Keys)|);
    AntennaCellsAndDots(grid0, Changed(grid0, grid));
  }

  lemma AntennaCellsAndDots(grid0: Grid, marked: set<Point>)
    requires marked <= Eligible(grid0, true)
    ensures |AntennaCells(grid0)| + |marked| <= |grid0|
  {
    var all := AntennaCells(grid0) + marked;
    assert AntennaCells(grid0) * marked == {};
    assert all <= grid0.Keys;
    SubsetCardinality(all, grid0.Keys);
  }

  /** The part-1 antinode of a pair is the first cell of its part-2 ray,
      so every part-1 antinode on the grid is also on a part-2 line. */
  lemma AntinodeStartsRay(keys: set<Point>, point: Point, other: Point)
    requires point != other && Antinode(point, other) in keys
    ensures Antinode(point, other) in Ray(keys, Antinode(point, other), Delta(point, other))
  {
  }

  // ---------------------------------------------------------------
  // Parsing

  /** `p` comes before `q` in the row-major scan of `parse_input`. */
  predicate Before(p: Point, q: Point) {
    p.1 < q.1 || (p.1 == q.1 && p.0 < q.0)
  }

  predicate RowMajor(s: seq<Point>) {
    forall i, j :: 0 <= i < j < |s| ==> Before(s[i], s[j])
  }

  /** The antennas' lists as `parse_input` leaves them: each frequency's
      cells in scan order. */
  ghost predicate ScanOrdered(antennas: Antennas) {
    forall c :: c in antennas ==> RowMajor(antennas[c])
  }

  lemma RowMajorDistinct(s: seq<Point>)
    requires RowMajor(s)
    ensures Distinct(s)
  {
  }

  /** `parse_input`: every character of the trimmed input in the grid,
      and each non-'.' character's cells, in scan order, under that
      character. */
  method ParseInput(input: string) returns (grid: Grid, antennas: Antennas)
    ensures IsGridOf(grid, Lines(Trim(input)))
    ensures WellFormed(grid, antennas) && ScanOrdered(antennas)
  {
    var lines := Lines(Trim(input));
    grid, antennas := map[], map[];
    for y := 0 to |lines|
      invariant forall p :: p in grid <==> 0 <= p.1 < y && 0 <= p.0 < |lines[p.1]|
      invariant forall p :: p in grid ==> grid[p] == lines[p.1][p.0]
      invariant WellFormed(grid, antennas) && ScanOrdered(antennas)
      invariant forall c, p :: c in antennas && p in antennas[c] ==> p.1 < y
    {
      grid, antennas := ParseLine(grid, antennas, lines, y);
    }
    assert forall p :: p in grid <==> 0 <= p.1 < |lines| && 0 <= p.0 < |lines[p.1]|;
  }

  /** The inner `for (x, char)` loop of `parse_input` over line `y`. */
  method ParseLine(grid: Grid, antennas: Antennas, lines: seq<string>, y: nat)
    returns (grid': Grid, antennas': Antennas)
    requires y < |lines|
    requires forall p :: p in grid <==> 0 <= p.1 < y && 0 <= p.0 < |lines[p.1]|
    requires forall p :: p in grid ==> grid[p] == lines[p.1][p.0]
    requires WellFormed(grid, antennas) && ScanOrdered(antennas)
    requires forall c, p :: c in antennas && p in antennas[c] ==> p.1 < y
    ensures forall p :: p in grid' <==> 0 <= p.1 < y + 1 && 0 <= p.0 < |lines[p.1]|
    ensures forall p :: p in grid' ==> grid'[p] == lines[p.1][p.0]
    ensures WellFormed(grid', antennas') && ScanOrdered(antennas')
    ensures forall c, p :: c in antennas' && p in antennas'[c] ==> p.1 < y + 1
  {
    grid', antennas' := grid, antennas;
    var line := lines[y];
    for x := 0 to |line|
      invariant forall p :: p in grid' <==> (0 <= p.1 < y && 0 <= p.0 < |lines[p.1]|) || (p.1 == y && 0 <= p.0 < x)
      invariant forall p :: p in grid' ==> grid'[p] == lines[p.1][p.0]
      invariant WellFormed(grid', antennas') && ScanOrdered(antennas')
      invariant forall c, p :: c in antennas' && p in antennas'[c] ==> Before(p, (x, y))
    {
      grid', antennas' := AddCell(grid', antennas', (x, y), line[x]);
    }
  }

  /** One cell: `grid.insert`, and for a character other than '.', a push
      onto its antenna list (a new list for a new character). */
  method AddCell(grid: Grid, antennas: Antennas, at: Point, ch: char) returns (grid': Grid, antennas': Antennas)
    requires at !in grid
    requires WellFormed(grid, antennas) && ScanOrdered(antennas)
    requires forall c, p :: c in antennas && p in antennas[c] ==> Before(p, at)
    ensures grid' == grid[at := ch]
    ensures WellFormed(grid', antennas') && ScanOrdered(antennas')
    ensures forall c, p :: c in antennas' && p in antennas'[c] ==> Before(p, (at.0 + 1, at.1))
  {
    grid' := grid[at := ch];
    var next := (at.0 + 1, at.1);
    var old_list := if ch in antennas then antennas[ch] else [];
    var list := old_list + [at];
    if ch == '.' {
      antennas' := antennas;
    } else {
      assert forall p :: p in list <==> p in old_list || p == at;
      assert RowMajor(list) by {
        assert forall i :: 0 <= i < |old_list| ==> Before(list[i], at);
      }
      antennas' := antennas[ch := list];
    }
    forall c, p | c in antennas' && p in antennas'[c]
      ensures Before(p, next)
    {
      if c != ch || ch == '.' {
        assert p in antennas[c];
        assert Before(p, at);
      } else if p == at {
        assert Before(at, next);
      } else {
        assert p in old_list;
        assert Before(p, at);
      }
    }
  }
}
