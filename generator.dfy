/** Construction of a word-search board in place: the placement test, the
    placement write, the random fill, and the bounded retry loop that ties
    them together. The board is an array that these methods update. */
module Generator {
  import opened Common
  import opened Grid

  /** The letters used to fill the cells no word occupies. */
  const Alphabet: string := "ABCDEFGHIJKLMNOPQRSTUVWXYZ"

  /** Attempts made for one word before it is given up. */
  const MaxAttempts: int := 100

  predicate IsBoard(g: array2<Cell>) {
    g.Length0 == GridSize && g.Length1 == GridSize
  }

  /** The board as a value. */
  ghost function Cells(g: array2<Cell>): (grid: seq<seq<Cell>>)
    requires IsBoard(g)
    reads g
    ensures IsGrid(grid)
    ensures forall r, c :: 0 <= r < GridSize && 0 <= c < GridSize ==> grid[r][c] == g[r, c]
  {
    seq(GridSize, r requires 0 <= r < GridSize reads g =>
      seq(GridSize, c requires 0 <= c < GridSize reads g => g[r, c]))
  }

  method CreateEmptyGrid() returns (g: array2<Cell>)
    ensures fresh(g) && IsBoard(g)
    ensures forall r, c :: 0 <= r < GridSize && 0 <= c < GridSize ==> g[r, c] == EmptyCell
  {
    g := new Cell[GridSize, GridSize]((r, c) => EmptyCell);
  }

  method CanPlaceWord(g: array2<Cell>, word: string, row: int, col: int, d: Direction) returns (ok: bool)
    requires IsBoard(g)
    ensures ok <==> Fits(Cells(g), word, row, col, d)
  {
    for i := 0 to |word|
      invariant forall k :: 0 <= k < i ==>
        Inside(Along(row, col, d, k)) &&
        (g[Along(row, col, d, k).row, Along(row, col, d, k).col].letter == "" ||
         g[Along(row, col, d, k).row, Along(row, col, d, k).col].letter == [word[k]])
    {
      var newRow, newCol := row + i * d.dRow, col + i * d.dCol;
      if newRow < 0 || newRow >= GridSize || newCol < 0 || newCol >= GridSize {
        assert !Inside(Along(row, col, d, i));
        return false;
      }
      if g[newRow, newCol].letter != "" && g[newRow, newCol].letter != [word[i]] {
        assert At(Cells(g), Along(row, col, d, i)) == g[newRow, newCol];
        return false;
      }
    }
    return true;
  }

  /** Writes the word's letters along the path, one cell at a time. */
  method PlaceWord(g: array2<Cell>, word: string, row: int, col: int, d: Direction)
    requires IsBoard(g) && d in Directions
    requires forall i :: 0 <= i < |word| ==> Inside(Along(row, col, d, i))
    modifies g
    ensures Cells(g) == WriteWord(old(Cells(g)), word, row, col, d, |word|)
  {
    ghost var start := Cells(g);
    for i := 0 to |word|
      invariant Cells(g) == WriteWord(start, word, row, col, d, i)
    {
      var newRow, newCol := row + i * d.dRow, col + i * d.dCol;
      assert Pos(newRow, newCol) == Along(row, col, d, i);
      ghost var before: seq<seq<Cell>> := Cells(g);
      g[newRow, newCol] := g[newRow, newCol].(letter := [word[i]]);
      ghost var expected := SetLetter(before, Pos(newRow, newCol), [word[i]]);
      forall r | 0 <= r < GridSize ensures Cells(g)[r] == expected[r] {
        assert forall c :: 0 <= c < GridSize ==> Cells(g)[r][c] == expected[r][c];
      }
    }
  }

  /** Gives every empty cell a random letter of the alphabet; cells that
      already hold a letter keep it. */
  method FillEmptyCells(g: array2<Cell>)
    requires IsBoard(g)
    modifies g
    ensures forall r, c :: 0 <= r < GridSize && 0 <= c < GridSize ==>
      if old(g[r, c].letter) != "" then g[r, c] == old(g[r, c])
      else g[r, c] == old(g[r, c]).(letter := g[r, c].letter) && |g[r, c].letter| == 1 && g[r, c].letter[0] in Alphabet
  {
    for row := 0 to GridSize
      invariant forall r, c :: 0 <= r < GridSize && 0 <= c < GridSize ==>
        if r >= row || old(g[r, c].letter) != "" then g[r, c] == old(g[r, c])
        else g[r, c] == old(g[r, c]).(letter := g[r, c].letter) && |g[r, c].letter| == 1 && g[r, c].letter[0] in Alphabet
    {
      for col := 0 to GridSize
        invariant forall r, c :: 0 <= r < GridSize && 0 <= c < GridSize ==>
          if r > row || (r == row && c >= col) || old(g[r, c].letter) != "" then g[r, c] == old(g[r, c])
          else g[r, c] == old(g[r, c]).(letter := g[r, c].letter) && |g[r, c].letter| == 1 && g[r, c].letter[0] in Alphabet
      {
        if g[row, col].letter == "" {
          var k :| 0 <= k < |Alphabet|;
          g[row, col] := g[row, col].(letter := [Alphabet[k]]);
        }
      }
    }
  }

  /** Whether the k-th record is where words[from[k]] was laid down on grid. */
  ghost predicate PlacedAt(grid: seq<seq<Cell>>, words: seq<WordData>, placed: seq<FoundWord>, from: seq<nat>, k: int)
    requires IsGrid(grid) && |placed| == |from| && 0 <= k < |placed|
  {
    from[k] < |words| && (k > 0 ==> from[k - 1] < from[k]) &&
    placed[k] == Placement(words[from[k]].word, placed[k].startRow, placed[k].startCol, placed[k].direction) &&
    placed[k].direction in Directions &&
    OccursAt(grid, placed[k].word, placed[k].startRow, placed[k].startCol, placed[k].direction)
  }

  /** Every letter on grid was already on base or lies on the path of one
      of the records. */
  ghost predicate Covered(grid: seq<seq<Cell>>, base: seq<seq<Cell>>, placed: seq<FoundWord>)
    requires IsGrid(grid) && IsGrid(base)
  {
    forall r, c :: 0 <= r < GridSize && 0 <= c < GridSize && grid[r][c].letter != "" ==>
      base[r][c].letter != "" || exists k :: 0 <= k < |placed| && OnRecord(Pos(r, c), placed[k])
  }

  /** Writing the word of a new record keeps every letter accounted for,
      once that record is added. */
  lemma CoveredWrite(grid: seq<seq<Cell>>, base: seq<seq<Cell>>, placed: seq<FoundWord>, q: FoundWord)
    requires IsGrid(grid) && IsGrid(base) && Covered(grid, base, placed)
    requires q.direction in Directions
    requires forall i :: 0 <= i < |q.word| ==> Inside(Along(q.startRow, q.startCol, q.direction, i))
    ensures Covered(WriteWord(grid, q.word, q.startRow, q.startCol, q.direction, |q.word|), base, placed + [q])
  {
    var after: seq<seq<Cell>> := WriteWord(grid, q.word, q.startRow, q.startCol, q.direction, |q.word|);
    var placed': seq<FoundWord> := placed + [q];
    assert forall k :: 0 <= k < |placed| ==> placed'[k] == placed[k];
    forall r: int, c: int | 0 <= r < GridSize && 0 <= c < GridSize && after[r][c].letter != ""
      ensures base[r][c].letter != "" || exists k :: 0 <= k < |placed'| && OnRecord(Pos(r, c), placed'[k])
    {
      WriteWordAt(grid, q.word, q.startRow, q.startCol, q.direction, |q.word|, Pos(r, c));
      if OnRecord(Pos(r, c), q) {
        assert OnRecord(Pos(r, c), placed'[|placed|]);
      }
    }
  }

  /** One word's turn: up to MaxAttempts random (direction, row, col) tries;
      the first one that fits is written. tries counts the attempts made:
      all of them when the word was given up. No letter already on the board
      changes; when the word was placed, the board is the old board with the
      word written where it fitted, and the word reads back from the record. */
  method TryPlaceWord(g: array2<Cell>, word: string) returns (p: Option<FoundWord>, ghost tries: int)
    requires IsBoard(g) && Unmarked(Cells(g))
    modifies g
    ensures 0 <= tries <= MaxAttempts && (p.None? ==> tries == MaxAttempts) && (p.Some? ==> tries >= 1)
    ensures Unmarked(Cells(g))
    ensures forall r, c :: 0 <= r < GridSize && 0 <= c < GridSize && old(g[r, c].letter) != "" ==>
      g[r, c].letter == old(g[r, c].letter)
    ensures p.None? ==> Cells(g) == old(Cells(g))
    ensures p.Some? ==>
      p.value == Placement(word, p.value.startRow, p.value.startCol, p.value.direction) &&
      p.value.direction in Directions &&
      Fits(old(Cells(g)), word, p.value.startRow, p.value.startCol, p.value.direction) &&
      Cells(g) == WriteWord(old(Cells(g)), word, p.value.startRow, p.value.startCol, p.value.direction, |word|) &&
      OccursAt(Cells(g), word, p.value.startRow, p.value.startCol, p.value.direction)
  {
    p := None;
    var attempts := 0;
    while p.None? && attempts < MaxAttempts
      invariant 0 <= attempts <= MaxAttempts
      invariant p.Some? ==> attempts >= 1
      invariant p.None? ==> Cells(g) == old(Cells(g))
      invariant Unmarked(Cells(g))
      invariant forall r, c :: 0 <= r < GridSize && 0 <= c < GridSize && old(g[r, c].letter) != "" ==>
        g[r, c].letter == old(g[r, c].letter)
      invariant p.Some? ==>
        p.value == Placement(word, p.value.startRow, p.value.startCol, p.value.direction) &&
        p.value.direction in Directions &&
        Fits(old(Cells(g)), word, p.value.startRow, p.value.startCol, p.value.direction) &&
        Cells(g) == WriteWord(old(Cells(g)), word, p.value.startRow, p.value.startCol, p.value.direction, |word|) &&
        OccursAt(Cells(g), word, p.value.startRow, p.value.startCol, p.value.direction)
      decreases MaxAttempts - attempts
    {
      var di :| 0 <= di < |Directions|;
      var row :| 0 <= row < GridSize;
      var col :| 0 <= col < GridSize;
      var d := Directions[di];
      var ok := CanPlaceWord(g, word, row, col, d);
      if ok {
        ghost var before: seq<seq<Cell>> := Cells(g);
        PlaceWord(g, word, row, col, d);
        forall r, c | 0 <= r < GridSize && 0 <= c < GridSize
          ensures before[r][c].letter != "" ==> g[r, c].letter == before[r][c].letter
          ensures |g[r, c].letter| <= 1 && !g[r, c].isSelected && !g[r, c].isFound && !g[r, c].isHighlighted
        {
          WriteWordKeeps(before, word, row, col, d, Pos(r, c));
        }
        WriteWordReads(before, word, row, col, d);
        p := Some(Placement(word, row, col, d));
      }
      attempts := attempts + 1;
    }
    tries := attempts;
  }

  /** The records so far, for the words before w: each built from a
      distinct listed word in list order and still reading on grid, and
      every letter on grid accounted for by base or by a record. */
  ghost predicate Laid(grid: seq<seq<Cell>>, base: seq<seq<Cell>>, words: seq<WordData>,
                       placed: seq<FoundWord>, from: seq<nat>, w: int)
    requires IsGrid(grid) && IsGrid(base)
  {
    && Unmarked(grid)
    && |placed| == |from| <= w
    && (forall k :: 0 <= k < |placed| ==> PlacedAt(grid, words, placed, from, k) && from[k] < w)
    && Covered(grid, base, placed)
  }

  /** The turn of words[w]: its record is added when it finds a place. */
  method PlaceNext(g: array2<Cell>, words: seq<WordData>, w: nat, placed: seq<FoundWord>, ghost from: seq<nat>,
                   ghost base: seq<seq<Cell>>)
    returns (placed': seq<FoundWord>, ghost from': seq<nat>)
    requires IsBoard(g) && IsGrid(base) && w < |words|
    requires Laid(Cells(g), base, words, placed, from, w)
    modifies g
    ensures Laid(Cells(g), base, words, placed', from', w + 1)
  {
    ghost var before: seq<seq<Cell>> := Cells(g);
    var p;
    ghost var tries;
    p, tries := TryPlaceWord(g, words[w].word);
    forall k | 0 <= k < |placed|
      ensures OccursAt(Cells(g), placed[k].word, placed[k].startRow, placed[k].startCol, placed[k].direction)
    {
      assert PlacedAt(before, words, placed, from, k);
      OccursPreserved(before, Cells(g), placed[k].word, placed[k].startRow, placed[k].startCol, placed[k].direction);
    }
    placed', from' := placed, from;
    if p.Some? {
      CoveredWrite(before, base, placed, p.value);
      placed', from' := placed + [p.value], from + [w];
    }
  }

  /** Gives each word in order its turn. Returns, for each word that found
      a place (from[k] is its index in words), the record of where it lies;
      every one of them still reads after the later words went down. A
      word given up leaves no letter: every letter on the board afterwards
      was there before or lies on the path of a returned record. */
  method PlaceWords(g: array2<Cell>, words: seq<WordData>) returns (placed: seq<FoundWord>, ghost from: seq<nat>)
    requires IsBoard(g) && Unmarked(Cells(g))
    modifies g
    ensures Unmarked(Cells(g))
    ensures |placed| == |from| <= |words|
    ensures forall k :: 0 <= k < |placed| ==> PlacedAt(Cells(g), words, placed, from, k)
    ensures Covered(Cells(g), old(Cells(g)), placed)
  {
    ghost var base: seq<seq<Cell>> := Cells(g);
    placed, from := [], [];
    for w := 0 to |words|
      invariant Laid(Cells(g), base, words, placed, from, w)
    {
      placed, from := PlaceNext(g, words, w, placed, from, base);
    }
  }

  /** Places the words in order, each with at most MaxAttempts random tries,
      then fills the rest. Returns the board and, for each word that found a
      place (from[k] is its index in words), the record of where it lies. */
  method GenerateGrid(words: seq<WordData>) returns (g: array2<Cell>, placed: seq<FoundWord>, ghost from: seq<nat>)
    ensures fresh(g) && IsBoard(g)
    ensures Filled(Cells(g))
    ensures forall r, c :: 0 <= r < GridSize && 0 <= c < GridSize ==>
      !g[r, c].isSelected && !g[r, c].isFound && !g[r, c].isHighlighted
    ensures |placed| == |from| <= |words|
    ensures forall k :: 0 <= k < |placed| ==> PlacedAt(Cells(g), words, placed, from, k)
    ensures forall r, c :: 0 <= r < GridSize && 0 <= c < GridSize ==>
      |g[r, c].letter| == 1 &&
      (g[r, c].letter[0] in Alphabet || exists k :: 0 <= k < |placed| && OnRecord(Pos(r, c), placed[k]))
  {
    g := CreateEmptyGrid();
    placed, from := PlaceWords(g, words);
    ghost var before: seq<seq<Cell>> := Cells(g);
    FillEmptyCells(g);
    forall k | 0 <= k < |placed|
      ensures PlacedAt(Cells(g), words, placed, from, k)
    {
      assert PlacedAt(before, words, placed, from, k);
      OccursPreserved(before, Cells(g), placed[k].word, placed[k].startRow, placed[k].startCol, placed[k].direction);
    }
  }
}
