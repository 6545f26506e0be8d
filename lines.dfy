/** The cells between a drag's anchor and the cursor: `getCellsInLine`, which
    steps max(|dRow|, |dCol|) times from start to end and rounds each
    intermediate coordinate, and the straight-line test that decides whether
    a drag is accepted. */
module Lines {
  import opened Grid

  function Abs(x: int): nat {
    if x < 0 then -x else x
  }

  function Sign(x: int): int {
    if x < 0 then -1 else if x == 0 then 0 else 1
  }

  /** Number of steps from start to end: the larger coordinate distance. */
  function Steps(start: Pos, end: Pos): nat {
    var dr, dc := Abs(end.row - start.row), Abs(end.col - start.col);
    if dr < dc then dc else dr
  }

  /** Math.round(n / d) for d > 0: the nearest integer, halves rounded up. */
  function RoundDiv(n: int, d: int): (q: int)
    requires d > 0
    ensures 2 * q * d <= 2 * n + d < 2 * q * d + 2 * d
  {
    (2 * n + d) / (2 * d)
  }

  /** The i-th cell of the line: start + i * (delta / steps), each coordinate
      rounded. */
  function LinePoint(start: Pos, end: Pos, i: int): Pos
    requires Steps(start, end) > 0
  {
    var k := Steps(start, end);
    Pos(RoundDiv(start.row * k + i * (end.row - start.row), k),
        RoundDiv(start.col * k + i * (end.col - start.col), k))
  }

  /** What `getCellsInLine` returns. */
  function LineCells(start: Pos, end: Pos): seq<Pos> {
    if Steps(start, end) == 0 then [start]
    else seq(Steps(start, end) + 1, i => LinePoint(start, end, i))
  }

  /** Horizontal, vertical or at 45 degrees. */
  predicate IsStraight(start: Pos, end: Pos) {
    var dr, dc := end.row - start.row, end.col - start.col;
    dr == 0 || dc == 0 || Abs(dr) == Abs(dc)
  }

  /** The unit step of a straight line. */
  function UnitStep(start: Pos, end: Pos): Direction {
    Direction(Sign(end.row - start.row), Sign(end.col - start.col))
  }

  lemma MulBounds(m: int, k: int)
    requires k > 0
    ensures m >= 1 ==> m * k >= k
    ensures m <= -1 ==> m * k <= -k
  {
    if m >= 1 {
      assert m * k == (m - 1) * k + k;
    } else if m <= -1 {
      assert m * k == -((-m - 1) * k) - k;
    }
  }

  /** Rounding a quotient that is an integer gives that integer. */
  lemma RoundDivExact(q: int, k: int)
    requires k > 0
    ensures RoundDiv(q * k, k) == q
  {
    var r := RoundDiv(q * k, k);
    var m := r - q;
    assert 2 * r * k == 2 * q * k + 2 * (m * k);
    MulBounds(m, k);
  }

  /** One coordinate of a straight line: stepping by u in {-1, 0, 1} needs no
      rounding. */
  lemma RoundDivStep(s: int, i: int, u: int, k: int)
    requires k > 0 && -1 <= u <= 1
    ensures RoundDiv(s * k + i * (u * k), k) == s + i * u
  {
    var n := s * k + i * (u * k);
    if u == 0 {
      assert u * k == 0;
      RoundDivExact(s, k);
    } else if u == 1 {
      assert u * k == k;
      assert n == (s + i) * k;
      RoundDivExact(s + i, k);
    } else {
      assert u * k == -k;
      assert n == (s - i) * k;
      RoundDivExact(s - i, k);
    }
  }

  /** Along a straight line, each coordinate difference is its sign times
      the number of steps. */
  lemma StraightDelta(start: Pos, end: Pos)
    requires IsStraight(start, end)
    ensures end.row - start.row == Sign(end.row - start.row) * Steps(start, end)
    ensures end.col - start.col == Sign(end.col - start.col) * Steps(start, end)
  {
  }

  /** The line has Steps + 1 cells, starts at start and ends at end, for any
      two cells, straight or not. */
  lemma LineCellsEnds(start: Pos, end: Pos)
    ensures |LineCells(start, end)| == Steps(start, end) + 1
    ensures LineCells(start, end)[0] == start
    ensures LineCells(start, end)[Steps(start, end)] == end
  {
    var k := Steps(start, end);
    if k > 0 {
      RoundDivExact(start.row, k);
      RoundDivExact(start.col, k);
      assert start.row * k + k * (end.row - start.row) == end.row * k;
      assert start.col * k + k * (end.col - start.col) == end.col * k;
      RoundDivExact(end.row, k);
      RoundDivExact(end.col, k);
    }
  }

  /** On a straight line no rounding happens: the i-th cell is exactly i unit
      steps from the start. */
  lemma StraightLineCells(start: Pos, end: Pos, i: int)
    requires IsStraight(start, end) && 0 <= i <= Steps(start, end)
    ensures LineCells(start, end)[i] == Along(start.row, start.col, UnitStep(start, end), i)
  {
    var k := Steps(start, end);
    var u := UnitStep(start, end);
    if k > 0 {
      StraightDelta(start, end);
      RoundDivStep(start.row, i, u.dRow, k);
      RoundDivStep(start.col, i, u.dCol, k);
    }
  }

  /** Every cell of a straight line between two cells of the board is on the
      board. */
  lemma StraightLineInside(start: Pos, end: Pos, i: int)
    requires Inside(start) && Inside(end)
    requires IsStraight(start, end) && 0 <= i <= Steps(start, end)
    ensures Inside(LineCells(start, end)[i])
  {
    StraightLineCells(start, end, i);
    var u := UnitStep(start, end);
    var k := Steps(start, end);
    assert end.row == start.row + k * u.dRow && end.col == start.col + k * u.dCol;
    assert Along(start.row, start.col, u, i).row == start.row + i * u.dRow;
    if u.dRow == 1 {
      assert start.row <= start.row + i * u.dRow <= end.row;
    } else if u.dRow == -1 {
      assert end.row <= start.row + i * u.dRow <= start.row;
    }
    if u.dCol == 1 {
      assert start.col <= start.col + i * u.dCol <= end.col;
    } else if u.dCol == -1 {
      assert end.col <= start.col + i * u.dCol <= start.col;
    }
  }

  /** Pushes the Steps + 1 rounded cells one by one; a zero-length drag gives
      just the start cell. */
  method GetCellsInLine(startRow: int, startCol: int, endRow: int, endCol: int) returns (cells: seq<Pos>)
    ensures cells == LineCells(Pos(startRow, startCol), Pos(endRow, endCol))
    ensures |cells| == Steps(Pos(startRow, startCol), Pos(endRow, endCol)) + 1
    ensures cells[0] == Pos(startRow, startCol) && cells[|cells| - 1] == Pos(endRow, endCol)
    ensures startRow == endRow && startCol == endCol ==> cells == [Pos(startRow, startCol)]
  {
    var start, end := Pos(startRow, startCol), Pos(endRow, endCol);
    LineCellsEnds(start, end);
    var steps := Steps(start, end);
    if steps == 0 {
      return [start];
    }
    cells := [];
    for i := 0 to steps + 1
      invariant |cells| == i
      invariant forall j :: 0 <= j < i ==> cells[j] == LinePoint(start, end, j)
    {
      cells := cells + [LinePoint(start, end, i)];
    }
  }
}
