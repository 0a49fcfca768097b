/** Word search for XMAS and for crossed MAS (src/years/y2024/day04.rs). */
module WordSearch {
  import opened Wrappers
  import opened Text

  /** A step of a search direction; either coordinate may be negative. */
  datatype Direction = Direction(x: int, y: int)

  /** A cell of the matrix: column `x` of row `y`. */
  datatype Position = Position(x: nat, y: nat)

  /** `Position + Direction`: an error when a coordinate would become
      negative (the conversion back to `usize` fails). */
  function Add(p: Position, d: Direction): (r: Option<Position>)
    ensures r.None? <==> p.x + d.x < 0 || p.y + d.y < 0
    ensures r.Some? ==> r.value.x == p.x + d.x && r.value.y == p.y + d.y
  {
    if p.x + d.x < 0 || p.y + d.y < 0 then None
    else Some(Position(p.x + d.x, p.y + d.y))
  }

  /** `Direction { x: delta.x * i, y: delta.y * i }`. */
  function Scale(d: Direction, i: nat): Direction {
    Direction(d.x * i, d.y * i)
  }

  /** The input lines as rows of characters; rows may differ in length. */
  type Matrix = seq<seq<char>>

  /** `input.split("\n").map(|x| x.chars().collect())`. */
  function ToMatrix(input: string): (m: Matrix)
    ensures |m| >= 1
  {
    Split(input, '\n')
  }

  /** `Matrix::get_row`. */
  function GetRow(m: Matrix, y: nat): (r: Option<seq<char>>)
    ensures r.Some? <==> y < |m|
    ensures r.Some? ==> r.value == m[y]
  {
    if y < |m| then Some(m[y]) else None
  }

  /** `Matrix::get_cell`: the row must exist and be long enough. */
  function GetCell(m: Matrix, x: nat, y: nat): (r: Option<char>)
    ensures r.Some? <==> y < |m| && x < |m[y]|
    ensures r.Some? ==> r.value == m[y][x]
  {
    match GetRow(m, y)
    case None => None
    case Some(row) => if x < |row| then Some(row[x]) else None
  }

  /** `DELTAS`: the eight directions, clockwise from east. */
  const Deltas: seq<Direction> := [
    Direction(1, 0), Direction(1, 1), Direction(0, 1), Direction(-1, 1),
    Direction(-1, 0), Direction(-1, -1), Direction(0, -1), Direction(1, -1)]

  const Word: string := "XMAS"

  /** The character `i` steps from `p` in direction `d`, if there is one. */
  function CellAlong(m: Matrix, p: Position, d: Direction, i: nat): Option<char> {
    match Add(p, Scale(d, i))
    case None => None
    case Some(q) => GetCell(m, q.x, q.y)
  }

  /** XMAS is spelled from `p` in direction `d`: all four cells exist. */
  predicate XmasAt(m: Matrix, p: Position, d: Direction) {
    forall i :: 0 <= i < |Word| ==> CellAlong(m, p, d, i) == Some(Word[i])
  }

  /** A match starts on an 'X' of the matrix. */
  lemma XmasStartsOnX(m: Matrix, p: Position, d: Direction)
    requires XmasAt(m, p, d)
    ensures p.y < |m| && p.x < |m[p.y]| && m[p.y][p.x] == 'X'
  {
    assert CellAlong(m, p, d, 0) == Some('X');
    assert Scale(d, 0) == Direction(0, 0);
  }

  /** The inner loop over the characters of the word, where every failed
      lookup or mismatch continues with the next direction. */
  method MatchAlong(m: Matrix, p: Position, d: Direction) returns (found: bool)
    ensures found <==> XmasAt(m, p, d)
  {
    for i := 0 to |Word|
      invariant forall j :: 0 <= j < i ==> CellAlong(m, p, d, j) == Some(Word[j])
    {
      var q := Add(p, Scale(d, i));
      if q.None? {
        assert CellAlong(m, p, d, i).None?;
        return false;
      }
      var cell := GetCell(m, q.value.x, q.value.y);
      if cell.None? || cell.value != Word[i] {
        assert CellAlong(m, p, d, i) == cell;
        return false;
      }
    }
    return true;
  }

  /** The number of the first `n` directions along which XMAS is spelled. */
  function DirectionsMatching(m: Matrix, p: Position, n: nat): (c: nat)
    requires n <= |Deltas|
    ensures c <= n
  {
    if n == 0 then 0
    else DirectionsMatching(m, p, n - 1) + (if XmasAt(m, p, Deltas[n - 1]) then 1 else 0)
  }

  /** The matches starting in the first `n` cells of row `y`; only cells
      holding 'X' are searched. */
  function CellsMatching(m: Matrix, y: nat, n: nat): nat
    requires y < |m| && n <= |m[y]|
  {
    if n == 0 then 0
    else
      CellsMatching(m, y, n - 1)
      + (if m[y][n - 1] == 'X' then DirectionsMatching(m, Position(n - 1, y), |Deltas|) else 0)
  }

  function RowsMatching(m: Matrix, n: nat): nat
    requires n <= |m|
  {
    if n == 0 then 0 else RowsMatching(m, n - 1) + CellsMatching(m, n - 1, |m[n - 1]|)
  }

  /** Part 1: one match per cell and direction spelling XMAS. */
  function CountXmas(m: Matrix): nat {
    RowsMatching(m, |m|)
  }

  /** `solve_part_1` on the parsed matrix. */
  method SolvePart1(m: Matrix) returns (matches: nat)
    ensures matches == CountXmas(m)
  {
    matches := 0;
    for y := 0 to |m|
      invariant matches == RowsMatching(m, y)
    {
      var row := m[y];
      for x := 0 to |row|
        invariant matches == RowsMatching(m, y) + CellsMatching(m, y, x)
      {
        if row[x] == Word[0] {
          var found := SearchDirections(m, Position(x, y));
          matches := matches + found;
        }
      }
    }
  }

  /** The loop over `DELTAS` for one 'X' cell. */
  method SearchDirections(m: Matrix, p: Position) returns (found: nat)
    ensures found == DirectionsMatching(m, p, |Deltas|)
  {
    found := 0;
    for k := 0 to |Deltas|
      invariant found == DirectionsMatching(m, p, k)
    {
      var isMatch := MatchAlong(m, p, Deltas[k]);
      if isMatch {
        found := found + 1;
      }
    }
  }

  /** Searching only from 'X' cells loses nothing: from any other cell
      no direction spells XMAS. */
  lemma {:induction false} OnlyFromX(m: Matrix, p: Position, n: nat)
    requires n <= |Deltas|
    requires !(p.y < |m| && p.x < |m[p.y]| && m[p.y][p.x] == 'X')
    ensures DirectionsMatching(m, p, n) == 0
  {
    if n > 0 {
      OnlyFromX(m, p, n - 1);
      if XmasAt(m, p, Deltas[n - 1]) {
        XmasStartsOnX(m, p, Deltas[n - 1]);
      }
    }
  }

  /** The number of 'X' cells among the first `n` of row `y`, and in the
      first `n` rows. */
  function XCells(m: Matrix, y: nat, n: nat): nat
    requires y < |m| && n <= |m[y]|
  {
    if n == 0 then 0 else XCells(m, y, n - 1) + (if m[y][n - 1] == 'X' then 1 else 0)
  }

  function XRows(m: Matrix, n: nat): nat
    requires n <= |m|
  {
    if n == 0 then 0 else XRows(m, n - 1) + XCells(m, n - 1, |m[n - 1]|)
  }

  lemma {:induction false} CellsBound(m: Matrix, y: nat, n: nat)
    requires y < |m| && n <= |m[y]|
    ensures CellsMatching(m, y, n) <= |Deltas| * XCells(m, y, n)
  {
    if n > 0 {
      CellsBound(m, y, n - 1);
    }
  }

  /** Part 1 counts at most eight matches per 'X'. */
  lemma {:induction false} CountXmasBound(m: Matrix, n: nat)
    requires n <= |m|
    ensures RowsMatching(m, n) <= 8 * XRows(m, n)
  {
    if n > 0 {
      CountXmasBound(m, n - 1);
      CellsBound(m, n - 1, |m[n - 1]|);
    }
  }

  /** `MASKS`: the two diagonals through a cell, each as its two ends. */
  const Masks: seq<(Direction, Direction)> := [
    (Direction(-1, -1), Direction(1, 1)),
    (Direction(-1, 1), Direction(1, -1))]

  /** The two characters at the ends of a diagonal through `p`; the
      `unwrap`s panic when an end is off the matrix. */
  function MaskCells(m: Matrix, p: Position, mask: (Direction, Direction)): Option<(char, char)> {
    match (Add(p, mask.0), Add(p, mask.1))
    case (Some(a), Some(b)) =>
      (match (GetCell(m, a.x, a.y), GetCell(m, b.x, b.y))
       case (Some(c), Some(e)) => Some((c, e))
       case _ => None)
    case _ => None
  }

  /** `cells == vec!['M', 'S'] || cells == vec!['S', 'M']`. */
  predicate IsMas(cells: (char, char)) {
    cells == ('M', 'S') || cells == ('S', 'M')
  }

  /** `MASKS.iter().all(...)`: the second diagonal is only read when the
      first one reads MAS. */
  function IsXMas(m: Matrix, p: Position): Option<bool> {
    match MaskCells(m, p, Masks[0])
    case None => None
    case Some(first) =>
      if !IsMas(first) then Some(false)
      else
        match MaskCells(m, p, Masks[1])
        case None => None
        case Some(second) => Some(IsMas(second))
  }

  /** Crossed MAS in the cells x in [1, n) of row `y`, or `None` on a panic. */
  function CrossesInRow(m: Matrix, y: nat, n: nat): (r: Option<nat>)
    requires y < |m| && n <= |m[y]|
    ensures r.Some? ==> r.value <= n
  {
    if n <= 1 then Some(0)
    else
      match CrossesInRow(m, y, n - 1)
      case None => None
      case Some(c) =>
        if m[y][n - 1] != 'A' then Some(c)
        else
          match IsXMas(m, Position(n - 1, y))
          case None => None
          case Some(b) => Some(c + if b then 1 else 0)
  }

  /** Rows y in [1, n); `row.len() - 1` underflows on an empty row. */
  function CrossesInRows(m: Matrix, n: nat): Option<nat>
    requires n <= |m|
  {
    if n <= 1 then Some(0)
    else
      match CrossesInRows(m, n - 1)
      case None => None
      case Some(c) =>
        if |m[n - 1]| == 0 then None
        else
          match CrossesInRow(m, n - 1, |m[n - 1]| - 1)
          case None => None
          case Some(r) => Some(c + r)
  }

  /** Part 2 over the interior rows; `len() - 1` underflows on an empty matrix. */
  function CountXMas(m: Matrix): Option<nat> {
    if |m| == 0 then None else CrossesInRows(m, |m| - 1)
  }

  /** `solve_part_2` on the parsed matrix, `None` where it panics. */
  method SolvePart2(m: Matrix) returns (r: Option<nat>)
    ensures r == CountXMas(m)
  {
    if |m| == 0 {
      return None;
    }
    var matches := 0;
    var y := 1;
    while y < |m| - 1
      invariant 1 <= y && (y <= |m| - 1 || y == 1)
      invariant CrossesInRows(m, y) == Some(matches)
    {
      var row := GetRow(m, y).value;
      if |row| == 0 {
        assert CrossesInRows(m, y + 1).None?;
        RowsFailAfter(m, y + 1, |m| - 1);
        return None;
      }
      var inRow := CountRowCrosses(m, y);
      if inRow.None? {
        assert CrossesInRows(m, y + 1).None?;
        RowsFailAfter(m, y + 1, |m| - 1);
        return None;
      }
      matches := matches + inRow.value;
      y := y + 1;
    }
    return Some(matches);
  }

  /** The loop over the interior cells of row `y`. */
  method CountRowCrosses(m: Matrix, y: nat) returns (r: Option<nat>)
    requires y < |m| && |m[y]| > 0
    ensures r == CrossesInRow(m, y, |m[y]| - 1)
  {
    var row := m[y];
    var matches := 0;
    var x := 1;
    while x < |row| - 1
      invariant 1 <= x && (x <= |row| - 1 || x == 1)
      invariant CrossesInRow(m, y, x) == Some(matches)
    {
      CrossesInRowNext(m, y, x, matches);
      var cell := GetCell(m, x, y).value;
      if cell == 'A' {
        var isXMas := IsXMas(m, Position(x, y));
        if isXMas.None? {
          CellsFailAfter(m, y, x + 1, |row| - 1);
          return None;
        }
        if isXMas.value {
          matches := matches + 1;
        }
      }
      x := x + 1;
    }
    if |row| == 1 {
      assert CrossesInRow(m, y, 0) == CrossesInRow(m, y, 1);
    }
    return Some(matches);
  }

  /** One more cell of the row. */
  lemma CrossesInRowNext(m: Matrix, y: nat, n: nat, c: nat)
    requires y < |m| && 1 <= n < |m[y]| && CrossesInRow(m, y, n) == Some(c)
    ensures m[y][n] != 'A' ==> CrossesInRow(m, y, n + 1) == Some(c)
    ensures m[y][n] == 'A' && IsXMas(m, Position(n, y)) == Some(true)
      ==> CrossesInRow(m, y, n + 1) == Some(c + 1)
    ensures m[y][n] == 'A' && IsXMas(m, Position(n, y)) == Some(false)
      ==> CrossesInRow(m, y, n + 1) == Some(c)
  {
  }

  lemma {:induction false} CellsFailAfter(m: Matrix, y: nat, n: nat, n': nat)
    requires y < |m| && 1 <= n <= n' <= |m[y]| && CrossesInRow(m, y, n).None?
    ensures CrossesInRow(m, y, n').None?
    decreases n' - n
  {
    if n < n' {
      CellsFailAfter(m, y, n + 1, n');
    }
  }

  lemma {:induction false} RowsFailAfter(m: Matrix, n: nat, n': nat)
    requires n <= n' <= |m| && CrossesInRows(m, n).None?
    ensures CrossesInRows(m, n').None?
    decreases n' - n
  {
    if n < n' {
      RowsFailAfter(m, n + 1, n');
    }
  }

  /** A rectangular matrix of width `w`. */
  predicate Rectangular(m: Matrix, w: nat) {
    forall y :: 0 <= y < |m| ==> |m[y]| == w
  }

  /** On an interior cell of a rectangular matrix nothing panics, and the
      cell is a crossing exactly when both diagonals read MAS one way or
      the other. */
  lemma InteriorCrossing(m: Matrix, w: nat, x: nat, y: nat)
    requires Rectangular(m, w) && 1 <= x < w - 1 && 1 <= y < |m| - 1
    ensures IsXMas(m, Position(x, y)) == Some(
      IsMas((m[y - 1][x - 1], m[y + 1][x + 1])) && IsMas((m[y + 1][x - 1], m[y - 1][x + 1])))
  {
    assert MaskCells(m, Position(x, y), Masks[0]) == Some((m[y - 1][x - 1], m[y + 1][x + 1]));
    assert MaskCells(m, Position(x, y), Masks[1]) == Some((m[y + 1][x - 1], m[y - 1][x + 1]));
  }

  lemma {:induction false} RectangularRow(m: Matrix, w: nat, y: nat, n: nat)
    requires Rectangular(m, w) && 1 <= y < |m| - 1 && n <= w - 1
    ensures CrossesInRow(m, y, n).Some?
  {
    if n > 1 {
      RectangularRow(m, w, y, n - 1);
      InteriorCrossing(m, w, n - 1, y);
    }
  }

  lemma {:induction false} RectangularRows(m: Matrix, w: nat, n: nat)
    requires Rectangular(m, w) && w >= 1 && n <= |m| - 1
    ensures CrossesInRows(m, n).Some?
  {
    if n > 1 {
      RectangularRows(m, w, n - 1);
      RectangularRow(m, w, n - 1, w - 1);
    }
  }

  /** Part 2 cannot panic on a non-empty rectangular matrix. */
  lemma RectangularCountXMas(m: Matrix, w: nat)
    requires Rectangular(m, w) && w >= 1 && |m| >= 1
    ensures CountXMas(m).Some?
  {
    RectangularRows(m, w, |m| - 1);
  }
}
