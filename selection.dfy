/** The word-search session and its press / drag / release state machine:
    `handleCellMouseDown`, `handleCellMouseEnter` and `handleCellMouseUp`,
    each a transition from one session value to the next, and `startGame`,
    which builds the first session value. */
module Selection {
  import opened Common
  import opened Grid
  import opened Lines
  import Generator

  /** One playthrough. `complete` is the separate "game complete" flag of the
      source; the timer only ever increments `timeElapsed`. */
  datatype GameState = GameState(
    grid: seq<seq<Cell>>,
    words: seq<WordData>,
    foundWords: seq<FoundWord>,
    selectedCells: seq<Pos>,
    isSelecting: bool,
    score: int,
    timeElapsed: int,
    hintsUsed: int,
    currentSelection: string,
    complete: bool)

  /** Hints allowed per session. */
  const MaxHints: int := 3

  /** Words used per game, taken from the front of the category. */
  const WordsPerGame: int := 5

  function Points(d: Difficulty): (p: nat)
    ensures 1 <= p <= 3
    ensures p == 3 <==> d == Hard
    ensures p == 1 <==> d == Easy
  {
    match d
    case Hard => 3
    case Medium => 2
    case Easy => 1
  }

  predicate IsFound(found: seq<FoundWord>, w: string) {
    exists k :: 0 <= k < |found| && found[k].word == w
  }

  predicate IsTarget(words: seq<WordData>, w: string) {
    exists k :: 0 <= k < |words| && words[k].word == w
  }

  predicate DistinctWords(found: seq<FoundWord>) {
    forall i, j :: 0 <= i < j < |found| ==> found[i].word != found[j].word
  }

  /** Points of the first listed word spelled w (none if w is not listed). */
  function PointsFor(words: seq<WordData>, w: string): nat {
    if words == [] then 0
    else if words[0].word == w then Points(words[0].difficulty)
    else PointsFor(words[1..], w)
  }

  /** The score a session has earned for the words it found. */
  function TotalPoints(words: seq<WordData>, found: seq<FoundWord>): nat {
    if found == [] then 0
    else TotalPoints(words, found[..|found| - 1]) + PointsFor(words, found[|found| - 1].word)
  }

  /** The string read backwards (`split("").reverse().join("")`). */
  function Reverse(s: string): (r: string)
    ensures |r| == |s|
    ensures forall i :: 0 <= i < |s| ==> r[i] == s[|s| - 1 - i]
  {
    seq(|s|, i requires 0 <= i < |s| => s[|s| - 1 - i])
  }

  /** The letters of the cells, in order, joined into one string. */
  function PathText(grid: seq<seq<Cell>>, cells: seq<Pos>): string
    requires IsGrid(grid)
    requires forall k :: 0 <= k < |cells| ==> Inside(cells[k])
  {
    if cells == [] then ""
    else PathText(grid, cells[..|cells| - 1]) + At(grid, cells[|cells| - 1]).letter
  }

  /** The grid with every cell passed through f. */
  function Remap(grid: seq<seq<Cell>>, f: (Pos, Cell) -> Cell): (g': seq<seq<Cell>>)
    requires IsGrid(grid)
    ensures IsGrid(g')
    ensures forall r, c :: 0 <= r < GridSize && 0 <= c < GridSize ==> g'[r][c] == f(Pos(r, c), grid[r][c])
  {
    seq(GridSize, r requires 0 <= r < GridSize =>
      seq(GridSize, c requires 0 <= c < GridSize => f(Pos(r, c), grid[r][c])))
  }

  function ClearHighlights(grid: seq<seq<Cell>>): (g': seq<seq<Cell>>)
    requires IsGrid(grid)
    ensures IsGrid(g')
    ensures forall r, c :: 0 <= r < GridSize && 0 <= c < GridSize ==> g'[r][c] == grid[r][c].(isHighlighted := false)
  {
    Remap(grid, (p: Pos, cell: Cell) => cell.(isHighlighted := false))
  }

  function HighlightOnly(grid: seq<seq<Cell>>, cells: seq<Pos>): (g': seq<seq<Cell>>)
    requires IsGrid(grid)
    ensures IsGrid(g')
    ensures forall r, c :: 0 <= r < GridSize && 0 <= c < GridSize ==> g'[r][c] == grid[r][c].(isHighlighted := Pos(r, c) in cells)
  {
    Remap(grid, (p: Pos, cell: Cell) => cell.(isHighlighted := p in cells))
  }

  function MarkFound(grid: seq<seq<Cell>>, cells: seq<Pos>): (g': seq<seq<Cell>>)
    requires IsGrid(grid)
    ensures IsGrid(g')
    ensures forall r, c :: 0 <= r < GridSize && 0 <= c < GridSize ==>
      g'[r][c] == grid[r][c].(isFound := Pos(r, c) in cells || grid[r][c].isFound, isHighlighted := false)
  {
    Remap(grid, (p: Pos, cell: Cell) => cell.(isFound := p in cells || cell.isFound, isHighlighted := false))
  }

  predicate SameLetters(g1: seq<seq<Cell>>, g2: seq<seq<Cell>>)
    requires IsGrid(g1) && IsGrid(g2)
  {
    forall r, c :: 0 <= r < GridSize && 0 <= c < GridSize ==> g1[r][c].letter == g2[r][c].letter
  }

  /** Found flags are never cleared. */
  predicate FoundKept(g1: seq<seq<Cell>>, g2: seq<seq<Cell>>)
    requires IsGrid(g1) && IsGrid(g2)
  {
    forall r, c :: 0 <= r < GridSize && 0 <= c < GridSize ==> g1[r][c].isFound ==> g2[r][c].isFound
  }

  predicate SameFound(g1: seq<seq<Cell>>, g2: seq<seq<Cell>>)
    requires IsGrid(g1) && IsGrid(g2)
  {
    forall r, c :: 0 <= r < GridSize && 0 <= c < GridSize ==> g1[r][c].isFound == g2[r][c].isFound
  }

  /** Exactly the given cells are highlighted. */
  predicate HighlightedExactly(grid: seq<seq<Cell>>, cells: seq<Pos>)
    requires IsGrid(grid)
  {
    forall r, c :: 0 <= r < GridSize && 0 <= c < GridSize ==> (grid[r][c].isHighlighted <==> Pos(r, c) in cells)
  }

  predicate AllInside(cells: seq<Pos>) {
    forall k :: 0 <= k < |cells| ==> Inside(cells[k])
  }

  /** What every reachable session satisfies. */
  predicate Valid(s: GameState) {
    && IsGrid(s.grid) && Filled(s.grid)
    && AllInside(s.selectedCells)
    && (s.isSelecting ==> |s.selectedCells| > 0 && s.currentSelection == PathText(s.grid, s.selectedCells))
    && DistinctWords(s.foundWords)
    && (forall k :: 0 <= k < |s.foundWords| ==> IsTarget(s.words, s.foundWords[k].word))
    && s.score == TotalPoints(s.words, s.foundWords)
    && 0 <= s.hintsUsed <= MaxHints
    && (s.complete <==> 0 < |s.words| == |s.foundWords|)
  }

  // ---------------------------------------------------------------------
  // Facts about the helpers

  /** On a filled board the selection string has one letter per cell, the
      letter of that cell. */
  lemma {:induction false} PathTextSpells(grid: seq<seq<Cell>>, cells: seq<Pos>)
    requires IsGrid(grid) && Filled(grid) && AllInside(cells)
    ensures |PathText(grid, cells)| == |cells|
    ensures forall i :: 0 <= i < |cells| ==> PathText(grid, cells)[i] == At(grid, cells[i]).letter[0]
  {
    if cells != [] {
      var prefix := cells[..|cells| - 1];
      PathTextSpells(grid, prefix);
      var last := At(grid, cells[|cells| - 1]).letter;
      assert |last| == 1;
      forall i | 0 <= i < |cells| ensures PathText(grid, cells)[i] == At(grid, cells[i]).letter[0] {
        if i < |cells| - 1 {
          assert cells[i] == prefix[i];
        }
      }
    }
  }

  /** The selection string depends on the letters only. */
  lemma {:induction false} PathTextLetters(g1: seq<seq<Cell>>, g2: seq<seq<Cell>>, cells: seq<Pos>)
    requires IsGrid(g1) && IsGrid(g2) && SameLetters(g1, g2) && AllInside(cells)
    ensures PathText(g1, cells) == PathText(g2, cells)
  {
    if cells != [] {
      PathTextLetters(g1, g2, cells[..|cells| - 1]);
    }
  }

  lemma ReverseReverse(s: string)
    ensures Reverse(Reverse(s)) == s
  {
  }

  /** Read backwards, a string keeps its letters and their counts. */
  lemma {:induction false} ReverseSameLetters(s: string)
    ensures multiset(Reverse(s)) == multiset(s)
  {
    if s != [] {
      var n := |s| - 1;
      ReverseSameLetters(s[..n]);
      assert Reverse(s) == [s[n]] + Reverse(s[..n]);
      assert s == s[..n] + [s[n]];
    }
  }

  /** The points of a listed word are those of its first listing. */
  lemma {:induction false} PointsForFirst(words: seq<WordData>, m: nat)
    requires m < |words|
    requires forall k :: 0 <= k < m ==> words[k].word != words[m].word
    ensures PointsFor(words, words[m].word) == Points(words[m].difficulty)
  {
    if m > 0 {
      PointsForFirst(words[1..], m - 1);
    }
  }

  /** The set of words a list spells. */
  function TextsOf(words: seq<WordData>): set<string> {
    if words == [] then {} else TextsOf(words[..|words| - 1]) + {words[|words| - 1].word}
  }

  function FoundTexts(found: seq<FoundWord>): set<string> {
    if found == [] then {} else FoundTexts(found[..|found| - 1]) + {found[|found| - 1].word}
  }

  lemma {:induction false} TextsOfBound(words: seq<WordData>)
    ensures |TextsOf(words)| <= |words|
    ensures forall k :: 0 <= k < |words| ==> words[k].word in TextsOf(words)
  {
    if words != [] {
      var prefix := words[..|words| - 1];
      TextsOfBound(prefix);
      forall k | 0 <= k < |words| ensures words[k].word in TextsOf(words) {
        if k < |words| - 1 { assert words[k] == prefix[k]; }
      }
    }
  }

  lemma {:induction false} FoundTextsSize(found: seq<FoundWord>)
    requires DistinctWords(found)
    ensures |FoundTexts(found)| == |found|
    ensures forall w :: w in FoundTexts(found) ==> exists k :: 0 <= k < |found| && found[k].word == w
  {
    if found != [] {
      var prefix := found[..|found| - 1];
      assert DistinctWords(prefix) by {
        forall i, j | 0 <= i < j < |prefix| ensures prefix[i].word != prefix[j].word {
          assert prefix[i] == found[i] && prefix[j] == found[j];
        }
      }
      FoundTextsSize(prefix);
      var w := found[|found| - 1].word;
      assert w !in FoundTexts(prefix) by {
        forall k | 0 <= k < |prefix| ensures prefix[k].word != w {
          assert prefix[k] == found[k];
        }
      }
      forall v | v in FoundTexts(found) ensures exists k :: 0 <= k < |found| && found[k].word == v {
        if v != w {
          var k :| 0 <= k < |prefix| && prefix[k].word == v;
          assert found[k].word == v;
        }
      }
    }
  }

  /** A session can never have found more distinct words than it lists. */
  lemma FoundBound(words: seq<WordData>, found: seq<FoundWord>)
    requires DistinctWords(found)
    requires forall k :: 0 <= k < |found| ==> IsTarget(words, found[k].word)
    ensures |found| <= |words|
  {
    FoundTextsSize(found);
    TextsOfBound(words);
    assert FoundTexts(found) <= TextsOf(words) by {
      forall w | w in FoundTexts(found) ensures w in TextsOf(words) {
        var k :| 0 <= k < |found| && found[k].word == w;
        assert IsTarget(words, found[k].word);
      }
    }
    SubsetSize(FoundTexts(found), TextsOf(words));
  }

  lemma {:induction false} SubsetSize(a: set<string>, b: set<string>)
    requires a <= b
    ensures |a| <= |b|
    decreases a
  {
    if a != {} {
      var x :| x in a;
      SubsetSize(a - {x}, b - {x});
    }
  }

  /** No word is listed twice. */
  predicate DistinctList(words: seq<WordData>) {
    forall i, j :: 0 <= i < j < |words| ==> words[i].word != words[j].word
  }

  lemma {:induction false} TextsOfMembers(words: seq<WordData>)
    ensures forall w :: w in TextsOf(words) <==> IsTarget(words, w)
  {
    if words != [] {
      var n := |words| - 1;
      var prefix := words[..n];
      TextsOfMembers(prefix);
      assert forall k :: 0 <= k < n ==> prefix[k] == words[k];
      forall w ensures w in TextsOf(words) <==> IsTarget(words, w) {
        if IsTarget(words, w) && w != words[n].word {
          var k :| 0 <= k < |words| && words[k].word == w;
          assert IsTarget(prefix, w);
        }
      }
    }
  }

  /** With no word listed twice, the set of the list's words has one
      member per entry. */
  lemma {:induction false} TextsOfDistinct(words: seq<WordData>)
    requires DistinctList(words)
    ensures |TextsOf(words)| == |words|
  {
    if words != [] {
      var n := |words| - 1;
      var prefix, last := words[..n], words[n].word;
      assert DistinctList(prefix) by {
        forall i, j | 0 <= i < j < n ensures prefix[i].word != prefix[j].word {
          assert prefix[i] == words[i] && prefix[j] == words[j];
        }
      }
      TextsOfDistinct(prefix);
      TextsOfMembers(prefix);
      assert !IsTarget(prefix, last) by {
        forall k | 0 <= k < n ensures prefix[k].word != last {
          assert prefix[k] == words[k];
        }
      }
      assert TextsOf(words) == TextsOf(prefix) + {last};
    }
  }

  /** With a word listed twice, the set of the list's words is smaller
      than the list. */
  lemma {:induction false} TextsOfRepeated(words: seq<WordData>)
    requires !DistinctList(words)
    ensures |TextsOf(words)| < |words|
  {
    var n := |words| - 1;
    var prefix := words[..n];
    assert forall k :: 0 <= k < n ==> prefix[k] == words[k];
    if DistinctList(prefix) {
      var i, j :| 0 <= i < j < |words| && words[i].word == words[j].word;
      assert IsTarget(prefix, words[n].word) by { assert j == n && prefix[i] == words[i]; }
      TextsOfMembers(prefix);
      TextsOfDistinct(prefix);
    } else {
      TextsOfRepeated(prefix);
    }
  }

  lemma {:induction false} FoundTextsMembers(found: seq<FoundWord>)
    ensures forall w :: w in FoundTexts(found) <==> IsFound(found, w)
  {
    if found != [] {
      var n := |found| - 1;
      var prefix := found[..n];
      FoundTextsMembers(prefix);
      assert forall k :: 0 <= k < n ==> prefix[k] == found[k];
      forall w ensures w in FoundTexts(found) <==> IsFound(found, w) {
        if IsFound(found, w) && w != found[n].word {
          var k :| 0 <= k < |found| && found[k].word == w;
          assert IsFound(prefix, w);
        }
      }
    }
  }

  lemma SubsetSameSize(a: set<string>, b: set<string>)
    requires a <= b && |a| == |b|
    ensures a == b
  {
    assert b == a + (b - a);
    assert a * (b - a) == {};
    assert |b - a| == 0;
  }

  /** For a list that names each word once, having found as many distinct
      listed words as there are listed words is having found every one. */
  lemma AllFoundIffCount(words: seq<WordData>, found: seq<FoundWord>)
    requires DistinctList(words) && DistinctWords(found)
    requires forall k :: 0 <= k < |found| ==> IsTarget(words, found[k].word)
    ensures |found| == |words| <==> forall k :: 0 <= k < |words| ==> IsFound(found, words[k].word)
  {
    TextsOfMembers(words);
    TextsOfDistinct(words);
    FoundTextsMembers(found);
    FoundTextsSize(found);
    FoundBound(words, found);
    assert FoundTexts(found) <= TextsOf(words) by {
      forall w | w in FoundTexts(found) ensures w in TextsOf(words) {
        var k :| 0 <= k < |found| && found[k].word == w;
        assert IsTarget(words, found[k].word);
      }
    }
    if |found| == |words| {
      SubsetSameSize(FoundTexts(found), TextsOf(words));
      forall k | 0 <= k < |words| ensures IsFound(found, words[k].word) {
        assert IsTarget(words, words[k].word);
      }
    }
    if forall k :: 0 <= k < |words| ==> IsFound(found, words[k].word) {
      assert TextsOf(words) <= FoundTexts(found) by {
        forall w | w in TextsOf(words) ensures w in FoundTexts(found) {
          var k :| 0 <= k < |words| && words[k].word == w;
          assert IsFound(found, words[k].word);
        }
      }
      SubsetSize(TextsOf(words), FoundTexts(found));
    }
  }

  /** When each word is listed once, a valid session is complete exactly
      when it has a word and every listed word has been found. */
  lemma CompleteIffAllFound(s: GameState)
    requires Valid(s) && DistinctList(s.words)
    ensures s.complete <==> 0 < |s.words| && forall k :: 0 <= k < |s.words| ==> IsFound(s.foundWords, s.words[k].word)
  {
    AllFoundIffCount(s.words, s.foundWords);
  }

  /** The completion test counts found records against listed entries, so
      a word listed twice leaves a valid session incomplete for ever, even
      once every listed word has been found. */
  lemma RepeatedWordBlocksCompletion(s: GameState)
    requires Valid(s) && !DistinctList(s.words)
    ensures !s.complete && |s.foundWords| < |s.words|
  {
    TextsOfMembers(s.words);
    TextsOfRepeated(s.words);
    FoundTextsSize(s.foundWords);
    assert FoundTexts(s.foundWords) <= TextsOf(s.words) by {
      forall w | w in FoundTexts(s.foundWords) ensures w in TextsOf(s.words) {
        var k :| 0 <= k < |s.foundWords| && s.foundWords[k].word == w;
        assert IsTarget(s.words, s.foundWords[k].word);
      }
    }
    SubsetSize(FoundTexts(s.foundWords), TextsOf(s.words));
  }

  // ---------------------------------------------------------------------
  // Matching

  /** Index of the first listed word equal to sel or to rev (`words.find`). */
  function FindMatch(words: seq<WordData>, sel: string, rev: string): (m: Option<nat>)
    ensures m.Some? ==> m.value < |words| && (words[m.value].word == sel || words[m.value].word == rev)
    ensures m.Some? ==> forall k :: 0 <= k < m.value ==> words[k].word != sel && words[k].word != rev
    ensures m.None? ==> forall k :: 0 <= k < |words| ==> words[k].word != sel && words[k].word != rev
  {
    if words == [] then None
    else if words[0].word == sel || words[0].word == rev then Some(0)
    else match FindMatch(words[1..], sel, rev)
      case None => None
      case Some(k) => Some(k + 1)
  }

  /** Whether releasing now awards a word: the first listed word equal to the
      selection or its reverse exists and has not been found yet. */
  predicate Awards(s: GameState) {
    var m := FindMatch(s.words, s.currentSelection, Reverse(s.currentSelection));
    s.isSelecting && m.Some? && !IsFound(s.foundWords, s.words[m.value].word)
  }

  function MatchedWord(s: GameState): WordData
    requires Awards(s)
  {
    s.words[FindMatch(s.words, s.currentSelection, Reverse(s.currentSelection)).value]
  }

  // ---------------------------------------------------------------------
  // Transitions

  /** Press on a cell: it becomes the anchor and the whole selection, and
      all highlights are cleared. */
  function MouseDown(s: GameState, row: int, col: int): (s': GameState)
    requires Valid(s) && Inside(Pos(row, col))
    ensures Valid(s')
    ensures s'.isSelecting && s'.selectedCells == [Pos(row, col)]
    ensures s'.currentSelection == s.grid[row][col].letter && |s'.currentSelection| == 1
    ensures HighlightedExactly(s'.grid, []) && SameLetters(s.grid, s'.grid) && SameFound(s.grid, s'.grid)
    ensures s'.words == s.words && s'.foundWords == s.foundWords && s'.score == s.score
    ensures s'.hintsUsed == s.hintsUsed && s'.complete == s.complete
  {
    var g := ClearHighlights(s.grid);
    var s' := s.(selectedCells := [Pos(row, col)], isSelecting := true,
                 currentSelection := s.grid[row][col].letter, grid := g);
    assert PathText(g, [Pos(row, col)]) == PathText(g, []) + At(g, Pos(row, col)).letter;
    s'
  }

  /** Drag over a cell. Only a straight line from the anchor is taken;
      any other drag, or a drag with no press, changes nothing. */
  function MouseEnter(s: GameState, row: int, col: int): (s': GameState)
    requires Valid(s) && Inside(Pos(row, col))
    ensures !s.isSelecting || !IsStraight(s.selectedCells[0], Pos(row, col)) ==> s' == s
    ensures s'.isSelecting == s.isSelecting
    ensures s'.words == s.words && s'.foundWords == s.foundWords && s'.score == s.score
    ensures s'.hintsUsed == s.hintsUsed && s'.complete == s.complete
  {
    if !s.isSelecting || |s.selectedCells| == 0 then s
    else
      var start, end := s.selectedCells[0], Pos(row, col);
      if !IsStraight(start, end) then s
      else
        var cells := LineCells(start, end);
        LineInside(start, end);
        s.(selectedCells := cells, currentSelection := PathText(s.grid, cells), grid := HighlightOnly(s.grid, cells))
  }

  /** Every cell of a straight line between two board cells is on the board. */
  lemma LineInside(start: Pos, end: Pos)
    requires Inside(start) && Inside(end) && IsStraight(start, end)
    ensures AllInside(LineCells(start, end))
  {
    LineCellsEnds(start, end);
    forall i | 0 <= i < |LineCells(start, end)| ensures Inside(LineCells(start, end)[i]) {
      StraightLineInside(start, end, i);
    }
  }

  /** A straight drag selects the line from the anchor to the cell, one
      step of the unit direction at a time; exactly those cells are
      highlighted and the selection string is their letters in order. */
  lemma MouseEnterSelectsLine(s: GameState, row: int, col: int)
    requires Valid(s) && Inside(Pos(row, col))
    requires s.isSelecting && IsStraight(s.selectedCells[0], Pos(row, col))
    ensures var s', start, end := MouseEnter(s, row, col), s.selectedCells[0], Pos(row, col);
      && s'.selectedCells == LineCells(start, end)
      && |s'.selectedCells| == Steps(start, end) + 1
      && (forall i :: 0 <= i < |s'.selectedCells| ==>
            s'.selectedCells[i] == Along(start.row, start.col, UnitStep(start, end), i))
      && s'.selectedCells[0] == start
      && s'.selectedCells[|s'.selectedCells| - 1] == end
      && HighlightedExactly(s'.grid, s'.selectedCells)
      && |s'.currentSelection| == |s'.selectedCells|
      && (forall i :: 0 <= i < |s'.selectedCells| ==>
            s'.currentSelection[i] == At(s.grid, s'.selectedCells[i]).letter[0])
  {
    var start, end := s.selectedCells[0], Pos(row, col);
    var cells := LineCells(start, end);
    LineCellsEnds(start, end);
    LineInside(start, end);
    forall i | 0 <= i < |cells| ensures cells[i] == Along(start.row, start.col, UnitStep(start, end), i) {
      StraightLineCells(start, end, i);
    }
    PathTextSpells(s.grid, cells);
  }

  /** A drag keeps the session valid and changes no letter and no found flag. */
  lemma MouseEnterKeepsValid(s: GameState, row: int, col: int)
    requires Valid(s) && Inside(Pos(row, col))
    ensures Valid(MouseEnter(s, row, col))
    ensures SameLetters(s.grid, MouseEnter(s, row, col).grid) && SameFound(s.grid, MouseEnter(s, row, col).grid)
  {
    var s' := MouseEnter(s, row, col);
    if s' != s {
      var cells := LineCells(s.selectedCells[0], Pos(row, col));
      LineCellsEnds(s.selectedCells[0], Pos(row, col));
      LineInside(s.selectedCells[0], Pos(row, col));
      PathTextLetters(s.grid, s'.grid, cells);
    }
  }

  /** Release. The first listed word that equals the selection or its
      reverse is awarded if it was not found yet; either way the highlights
      are cleared and the selection is dropped. */
  function MouseUp(s: GameState): (s': GameState)
    requires Valid(s)
    ensures !s.isSelecting ==> s' == s
    ensures s.isSelecting ==> !s'.isSelecting && s'.selectedCells == [] && s'.currentSelection == ""
    ensures s'.words == s.words && s'.hintsUsed == s.hintsUsed
  {
    if !s.isSelecting then s
    else
      var next :=
        if Awards(s) then
          var w := MatchedWord(s);
          var start, end := s.selectedCells[0], s.selectedCells[|s.selectedCells| - 1];
          var record := FoundWord(w.word, start.row, start.col, end.row, end.col,
                                  Direction(end.row - start.row, end.col - start.col));
          s.(foundWords := s.foundWords + [record],
             score := s.score + Points(w.difficulty),
             grid := MarkFound(s.grid, s.selectedCells),
             complete := s.complete || |s.foundWords| + 1 == |s.words|)
        else
          s.(grid := ClearHighlights(s.grid));
      next.(selectedCells := [], isSelecting := false, currentSelection := "")
  }

  /** Releasing clears every highlight and changes no letter; no found flag
      is ever cleared. */
  lemma MouseUpClears(s: GameState)
    requires Valid(s) && s.isSelecting
    ensures HighlightedExactly(MouseUp(s).grid, [])
    ensures SameLetters(s.grid, MouseUp(s).grid) && FoundKept(s.grid, MouseUp(s).grid)
  {
  }

  /** An awarded release: the selection spells the word forwards or
      backwards, one record from the first to the last selected cell is
      appended, the score rises by the word's points, every selected cell is
      marked found, and the session is complete once the last word is in. */
  lemma MouseUpAwards(s: GameState)
    requires Valid(s) && Awards(s)
    ensures var s', w := MouseUp(s), MatchedWord(s);
      var start, end := s.selectedCells[0], s.selectedCells[|s.selectedCells| - 1];
      && (PathText(s.grid, s.selectedCells) == w.word || Reverse(PathText(s.grid, s.selectedCells)) == w.word)
      && !IsFound(s.foundWords, w.word)
      && s'.foundWords == s.foundWords + [FoundWord(w.word, start.row, start.col, end.row, end.col,
                                                    Direction(end.row - start.row, end.col - start.col))]
      && s'.score == s.score + Points(w.difficulty)
      && (forall k :: 0 <= k < |s.selectedCells| ==> At(s'.grid, s.selectedCells[k]).isFound)
      && (forall r, c :: 0 <= r < GridSize && 0 <= c < GridSize ==>
            s'.grid[r][c].isFound == (Pos(r, c) in s.selectedCells || s.grid[r][c].isFound))
      && (s'.complete <==> |s'.foundWords| == |s.words|)
  {
    MouseUpKeepsValid(s);
  }

  /** A release that awards nothing scores nothing and marks nothing. */
  lemma MouseUpNoAward(s: GameState)
    requires Valid(s) && !Awards(s)
    ensures var s' := MouseUp(s);
      s'.foundWords == s.foundWords && s'.score == s.score && s'.complete == s.complete &&
      SameFound(s.grid, s'.grid)
  {
  }

  /** Appending a listed word not found yet keeps the found words distinct
      and listed, and adds the points of that word's first listing. */
  lemma AwardKeepsLists(words: seq<WordData>, found: seq<FoundWord>, m: nat, record: FoundWord)
    requires DistinctWords(found) && forall k :: 0 <= k < |found| ==> IsTarget(words, found[k].word)
    requires m < |words| && record.word == words[m].word && !IsFound(found, record.word)
    requires forall k :: 0 <= k < m ==> words[k].word != words[m].word
    ensures DistinctWords(found + [record])
    ensures forall k :: 0 <= k < |found| + 1 ==> IsTarget(words, (found + [record])[k].word)
    ensures TotalPoints(words, found + [record]) == TotalPoints(words, found) + Points(words[m].difficulty)
  {
    var f := found + [record];
    assert forall k :: 0 <= k < |found| ==> f[k] == found[k];
    assert DistinctWords(f) by {
      forall i, j | 0 <= i < j < |f| ensures f[i].word != f[j].word {
        if j == |found| {
          assert f[i].word == found[i].word;
        }
      }
    }
    assert IsTarget(words, f[|found|].word);
    assert f[..|f| - 1] == found;
    PointsForFirst(words, m);
  }

  /** An awarding release keeps the session valid. */
  lemma AwardKeepsValid(s: GameState)
    requires Valid(s) && Awards(s)
    ensures Valid(MouseUp(s))
  {
    var m := FindMatch(s.words, s.currentSelection, Reverse(s.currentSelection)).value;
    var start, end := s.selectedCells[0], s.selectedCells[|s.selectedCells| - 1];
    var record := FoundWord(s.words[m].word, start.row, start.col, end.row, end.col,
                            Direction(end.row - start.row, end.col - start.col));
    var f := s.foundWords + [record];
    AwardKeepsLists(s.words, s.foundWords, m, record);
    FoundBound(s.words, f);
    var s' := MouseUp(s);
    assert s'.foundWords == f && s'.score == s.score + Points(s.words[m].difficulty);
    assert s'.grid == MarkFound(s.grid, s.selectedCells);
    assert Filled(s'.grid);
    assert s'.complete <==> 0 < |s'.words| == |s'.foundWords|;
  }

  /** Releasing keeps the session valid. */
  lemma MouseUpKeepsValid(s: GameState)
    requires Valid(s)
    ensures Valid(MouseUp(s))
  {
    if s.isSelecting {
      if Awards(s) {
        AwardKeepsValid(s);
      } else {
        assert Filled(MouseUp(s).grid);
      }
    }
  }

  /** The match does not depend on which of the two strings is which. */
  lemma {:induction false} FindMatchSwap(words: seq<WordData>, a: string, b: string)
    ensures FindMatch(words, b, a) == FindMatch(words, a, b)
  {
    if words != [] {
      FindMatchSwap(words[1..], a, b);
    }
  }

  /** Dragging the same letters backwards finds the same word. */
  lemma BackwardsSameMatch(words: seq<WordData>, sel: string)
    ensures FindMatch(words, Reverse(sel), Reverse(Reverse(sel))) == FindMatch(words, sel, Reverse(sel))
  {
    ReverseReverse(sel);
    FindMatchSwap(words, sel, Reverse(sel));
  }

  /** A word is awarded once: once a release has awarded it, no later
      release of the same letters (in either order) awards anything. */
  lemma NoSecondAward(s: GameState, t: GameState)
    requires Valid(s) && Awards(s)
    requires t.words == s.words && MouseUp(s).foundWords <= t.foundWords
    requires t.currentSelection == s.currentSelection || t.currentSelection == Reverse(s.currentSelection)
    ensures !Awards(t)
  {
    var w := MatchedWord(s);
    var n := |s.foundWords|;
    assert t.foundWords[n] == MouseUp(s).foundWords[n];
    assert IsFound(t.foundWords, w.word);
    BackwardsSameMatch(s.words, s.currentSelection);
  }

  /** The session a new game starts with: the first WordsPerGame words of
      the category, a freshly generated board, nothing found, no hints used. */
  method StartGame(categoryWords: seq<WordData>) returns (s: GameState, placed: seq<FoundWord>)
    ensures Valid(s)
    ensures s.words == categoryWords[..if |categoryWords| < WordsPerGame then |categoryWords| else WordsPerGame]
    ensures s.foundWords == [] && s.score == 0 && s.hintsUsed == 0 && s.timeElapsed == 0
    ensures !s.isSelecting && s.selectedCells == [] && s.currentSelection == "" && !s.complete
    ensures forall r, c :: 0 <= r < GridSize && 0 <= c < GridSize ==>
      !s.grid[r][c].isSelected && !s.grid[r][c].isFound && !s.grid[r][c].isHighlighted
    ensures forall k :: 0 <= k < |placed| ==>
      IsTarget(s.words, placed[k].word) && placed[k].direction in Directions &&
      OccursAt(s.grid, placed[k].word, placed[k].startRow, placed[k].startCol, placed[k].direction)
    ensures forall r, c :: 0 <= r < GridSize && 0 <= c < GridSize ==>
      |s.grid[r][c].letter| == 1 &&
      (s.grid[r][c].letter[0] in Generator.Alphabet || exists k :: 0 <= k < |placed| && OnRecord(Pos(r, c), placed[k]))
  {
    var words := categoryWords[..if |categoryWords| < WordsPerGame then |categoryWords| else WordsPerGame];
    var g;
    ghost var from;
    g, placed, from := Generator.GenerateGrid(words);
    var grid := seq(GridSize, r requires 0 <= r < GridSize reads g =>
      seq(GridSize, c requires 0 <= c < GridSize reads g => g[r, c]));
    assert grid == Generator.Cells(g);
    forall k | 0 <= k < |placed|
      ensures IsTarget(words, placed[k].word) && placed[k].direction in Directions &&
        OccursAt(grid, placed[k].word, placed[k].startRow, placed[k].startCol, placed[k].direction)
    {
      assert Generator.PlacedAt(grid, words, placed, from, k);
      assert placed[k].word == words[from[k]].word;
    }
    s := GameState(grid, words, [], [], false, 0, 0, 0, "", false);
  }
}
