/** The word-search board: a GridSize x GridSize matrix of cells, the three
    placement directions, and what it means for a word to be readable on it. */
module Grid {
  import opened Common

  /** Side of the square board. */
  const GridSize: int := 12

  /** A board coordinate; also used for the cells of a selection. */
  datatype Pos = Pos(row: int, col: int)

  /** A step vector (dRow, dCol). The source keeps it as a two-element array
      or as the string "dRow,dCol"; here it is an integer pair. */
  datatype Direction = Direction(dRow: int, dCol: int)

  /** The placement directions: right, down, diagonal down-right. */
  const Directions: seq<Direction> := [Direction(0, 1), Direction(1, 0), Direction(1, 1)]

  /** One board cell. An empty cell holds the letter "". */
  datatype Cell = Cell(letter: string, isSelected: bool, isFound: bool, isHighlighted: bool)

  const EmptyCell: Cell := Cell("", false, false, false)

  /** A word to find, as listed in a category. */
  datatype WordData = WordData(word: string, definition: string, difficulty: Difficulty, category: string)

  /** Where a word lies: start and end cell and the direction between them. */
  datatype FoundWord = FoundWord(word: string, startRow: int, startCol: int, endRow: int, endCol: int, direction: Direction)

  predicate Inside(p: Pos) {
    0 <= p.row < GridSize && 0 <= p.col < GridSize
  }

  /** The i-th cell of the path that starts at (row, col) and steps by d. */
  function Along(row: int, col: int, d: Direction, i: int): Pos {
    Pos(row + i * d.dRow, col + i * d.dCol)
  }

  /** The record kept for a word of length |word| laid from (row, col) along d. */
  function Placement(word: string, row: int, col: int, d: Direction): (p: FoundWord)
    ensures p.word == word && p.startRow == row && p.startCol == col && p.direction == d
    ensures |word| > 0 ==> Pos(p.endRow, p.endCol) == Along(row, col, d, |word| - 1)
  {
    FoundWord(word, row, col, row + (|word| - 1) * d.dRow, col + (|word| - 1) * d.dCol, d)
  }

  /** A board value of the right shape. */
  predicate IsGrid(grid: seq<seq<Cell>>) {
    |grid| == GridSize && forall r :: 0 <= r < GridSize ==> |grid[r]| == GridSize
  }

  function At(grid: seq<seq<Cell>>, p: Pos): Cell
    requires IsGrid(grid) && Inside(p)
  {
    grid[p.row][p.col]
  }

  /** No cell holds more than one letter and no flag is set: the state of a
      board while words are being placed. */
  predicate Unmarked(grid: seq<seq<Cell>>)
    requires IsGrid(grid)
  {
    forall r, c :: 0 <= r < GridSize && 0 <= c < GridSize ==>
      |grid[r][c].letter| <= 1 && !grid[r][c].isSelected && !grid[r][c].isFound && !grid[r][c].isHighlighted
  }

  /** Every cell holds exactly one letter. */
  predicate Filled(grid: seq<seq<Cell>>)
    requires IsGrid(grid)
  {
    forall r, c :: 0 <= r < GridSize && 0 <= c < GridSize ==> |grid[r][c].letter| == 1
  }

  /** The i-th letter of word sits on the i-th cell of the path. */
  predicate Matches(grid: seq<seq<Cell>>, word: string, row: int, col: int, d: Direction, i: int)
    requires IsGrid(grid) && 0 <= i < |word|
  {
    Inside(Along(row, col, d, i)) && At(grid, Along(row, col, d, i)).letter == [word[i]]
  }

  /** Reading |word| cells from (row, col) along d spells word exactly. */
  predicate OccursAt(grid: seq<seq<Cell>>, word: string, row: int, col: int, d: Direction)
    requires IsGrid(grid)
  {
    forall i :: 0 <= i < |word| ==> Matches(grid, word, row, col, d, i)
  }

  /** Where a word reads, its record spans it: the start cell holds the
      first letter and the end cell, on the board, holds the last. */
  lemma PlacementEnds(grid: seq<seq<Cell>>, word: string, row: int, col: int, d: Direction)
    requires IsGrid(grid) && OccursAt(grid, word, row, col, d) && |word| > 0
    ensures var p := Placement(word, row, col, d);
      && Inside(Pos(p.startRow, p.startCol)) && At(grid, Pos(p.startRow, p.startCol)).letter == [word[0]]
      && Inside(Pos(p.endRow, p.endCol)) && At(grid, Pos(p.endRow, p.endCol)).letter == [word[|word| - 1]]
  {
    assert Matches(grid, word, row, col, d, 0);
    assert Along(row, col, d, 0) == Pos(row, col);
    assert Matches(grid, word, row, col, d, |word| - 1);
  }

  /** Every cell of the path is on the board and is empty or already holds
      the letter the word needs there. */
  predicate Fits(grid: seq<seq<Cell>>, word: string, row: int, col: int, d: Direction)
    requires IsGrid(grid)
  {
    forall i :: 0 <= i < |word| ==>
      Inside(Along(row, col, d, i)) &&
      (At(grid, Along(row, col, d, i)).letter == "" || At(grid, Along(row, col, d, i)).letter == [word[i]])
  }

  /** The cells of a path along one of the three directions, without products. */
  lemma AlongUnit(row: int, col: int, d: Direction, i: int)
    requires d in Directions
    ensures Along(row, col, d, i) ==
      if d.dRow == 0 then Pos(row, col + i)
      else if d.dCol == 0 then Pos(row + i, col)
      else Pos(row + i, col + i)
  {
  }

  /** The position of p along a path in one of the three directions. */
  function PathIndex(p: Pos, row: int, col: int, d: Direction): int {
    if d.dRow != 0 then p.row - row else p.col - col
  }

  /** Whether p is one of the first n cells of the path from (row, col)
      along one of the three directions. */
  predicate OnPath(p: Pos, row: int, col: int, d: Direction, n: int)
    requires d in Directions
  {
    if d.dRow == 0 then p.row == row && col <= p.col < col + n
    else if d.dCol == 0 then p.col == col && row <= p.row < row + n
    else p.row - row == p.col - col && row <= p.row < row + n
  }

  lemma OnPathIndex(p: Pos, row: int, col: int, d: Direction, n: int)
    requires d in Directions
    ensures OnPath(p, row, col, d, n) <==>
      0 <= PathIndex(p, row, col, d) < n && p == Along(row, col, d, PathIndex(p, row, col, d))
  {
    AlongUnit(row, col, d, PathIndex(p, row, col, d));
  }

  /** Cell p lies on the path of the placement record w. */
  predicate OnRecord(p: Pos, w: FoundWord) {
    w.direction in Directions && OnPath(p, w.startRow, w.startCol, w.direction, |w.word|)
  }

  /** The board with the letter of cell p replaced by x. */
  function SetLetter(grid: seq<seq<Cell>>, p: Pos, x: string): (g': seq<seq<Cell>>)
    requires IsGrid(grid) && Inside(p)
    ensures IsGrid(g')
  {
    grid[p.row := grid[p.row][p.col := grid[p.row][p.col].(letter := x)]]
  }

  /** The board after the first n letters of word have been written along
      the path from (row, col) in direction d. */
  function WriteWord(grid: seq<seq<Cell>>, word: string, row: int, col: int, d: Direction, n: nat): (g': seq<seq<Cell>>)
    requires IsGrid(grid) && n <= |word|
    requires forall i :: 0 <= i < |word| ==> Inside(Along(row, col, d, i))
    ensures IsGrid(g')
  {
    if n == 0 then grid
    else SetLetter(WriteWord(grid, word, row, col, d, n - 1), Along(row, col, d, n - 1), [word[n - 1]])
  }

  /** Cell by cell, writing a word changes exactly the letters of the cells
      on its path, each to the word's letter at that position. */
  lemma {:induction false} WriteWordAt(grid: seq<seq<Cell>>, word: string, row: int, col: int, d: Direction, n: nat, p: Pos)
    requires IsGrid(grid) && n <= |word| && d in Directions && Inside(p)
    requires forall i :: 0 <= i < |word| ==> Inside(Along(row, col, d, i))
    ensures OnPath(p, row, col, d, n) ==>
      0 <= PathIndex(p, row, col, d) < n &&
      At(WriteWord(grid, word, row, col, d, n), p) == At(grid, p).(letter := [word[PathIndex(p, row, col, d)]])
    ensures !OnPath(p, row, col, d, n) ==> At(WriteWord(grid, word, row, col, d, n), p) == At(grid, p)
  {
    OnPathIndex(p, row, col, d, n);
    if n > 0 {
      WriteWordAt(grid, word, row, col, d, n - 1, p);
      OnPathIndex(p, row, col, d, n - 1);
    }
  }

  /** Placing a word makes it readable from its start along its direction. */
  lemma WriteWordReads(grid: seq<seq<Cell>>, word: string, row: int, col: int, d: Direction)
    requires IsGrid(grid) && d in Directions
    requires forall i :: 0 <= i < |word| ==> Inside(Along(row, col, d, i))
    ensures OccursAt(WriteWord(grid, word, row, col, d, |word|), word, row, col, d)
  {
    forall i | 0 <= i < |word|
      ensures Matches(WriteWord(grid, word, row, col, d, |word|), word, row, col, d, i)
    {
      var p := Along(row, col, d, i);
      AlongUnit(row, col, d, i);
      OnPathIndex(p, row, col, d, |word|);
      WriteWordAt(grid, word, row, col, d, |word|, p);
    }
  }

  /** Placing a word where it fits changes no letter that was already there,
      and no flag anywhere. */
  lemma WriteWordKeeps(grid: seq<seq<Cell>>, word: string, row: int, col: int, d: Direction, p: Pos)
    requires IsGrid(grid) && d in Directions && Inside(p)
    requires Fits(grid, word, row, col, d)
    ensures var after := At(WriteWord(grid, word, row, col, d, |word|), p);
      after == At(grid, p).(letter := after.letter) &&
      (At(grid, p).letter != "" ==> after == At(grid, p)) &&
      (|At(grid, p).letter| <= 1 ==> |after.letter| <= 1)
  {
    WriteWordAt(grid, word, row, col, d, |word|, p);
    if OnPath(p, row, col, d, |word|) {
      OnPathIndex(p, row, col, d, |word|);
      var i := PathIndex(p, row, col, d);
      assert Inside(Along(row, col, d, i));
    }
  }

  /** A later write that leaves every non-empty letter alone keeps every word
      that was readable before readable after. */
  lemma OccursPreserved(before: seq<seq<Cell>>, after: seq<seq<Cell>>, word: string, row: int, col: int, d: Direction)
    requires IsGrid(before) && IsGrid(after)
    requires forall r, c :: 0 <= r < GridSize && 0 <= c < GridSize && before[r][c].letter != "" ==>
      after[r][c].letter == before[r][c].letter
    requires OccursAt(before, word, row, col, d)
    ensures OccursAt(after, word, row, col, d)
  {
    forall i | 0 <= i < |word|
      ensures Matches(after, word, row, col, d, i)
    {
      assert Matches(before, word, row, col, d, i);
      var p := Along(row, col, d, i);
      assert before[p.row][p.col].letter == [word[i]];
    }
  }
}
