/** Locating a word on a board (`findWordPlacement`) and the hint that
    highlights one letter of a word not found yet (`useHint`). */
module Hints {
  import opened Common
  import opened Grid
  import opened Selection

  /** Whether slot (r, c, di) comes strictly before slot (r2, c2, di2) in
      the scan order: rows first, then columns, then directions. */
  predicate Earlier(r: int, c: int, di: int, r2: int, c2: int, di2: int) {
    r < r2 || (r == r2 && (c < c2 || (c == c2 && di < di2)))
  }

  predicate IsSlot(r: int, c: int, di: int) {
    0 <= r < GridSize && 0 <= c < GridSize && 0 <= di < |Directions|
  }

  /** Position of a direction in Directions. */
  function DirIndex(d: Direction): (i: nat)
    requires d in Directions
    ensures i < |Directions| && Directions[i] == d
  {
    if d == Directions[0] then 0 else if d == Directions[1] then 1 else 2
  }

  /** The scan from slot (r, c, di) on: the first slot at which the word
      reads, as a placement record, or None. */
  function ScanFrom(grid: seq<seq<Cell>>, word: string, r: int, c: int, di: int): Option<FoundWord>
    requires IsGrid(grid) && 0 <= r && 0 <= c && 0 <= di
    decreases GridSize - r, GridSize - c, |Directions| - di
  {
    if r >= GridSize then None
    else if c >= GridSize then ScanFrom(grid, word, r + 1, 0, 0)
    else if di >= |Directions| then ScanFrom(grid, word, r, c + 1, 0)
    else if OccursAt(grid, word, r, c, Directions[di]) then Some(Placement(word, r, c, Directions[di]))
    else ScanFrom(grid, word, r, c, di + 1)
  }

  /** Where the board shows the word first, in scan order. */
  function FirstPlacement(grid: seq<seq<Cell>>, word: string): Option<FoundWord>
    requires IsGrid(grid)
  {
    ScanFrom(grid, word, 0, 0, 0)
  }

  /** The scan from a slot finds the first slot, at or after it, where the
      word reads; it finds nothing exactly when the word reads at none. */
  lemma {:induction false} ScanFromSpec(grid: seq<seq<Cell>>, word: string, r0: int, c0: int, di0: int)
    requires IsGrid(grid) && 0 <= r0 && 0 <= c0 && 0 <= di0
    decreases GridSize - r0, GridSize - c0, |Directions| - di0
    ensures ScanFrom(grid, word, r0, c0, di0).None? <==>
      forall r, c, di :: IsSlot(r, c, di) && !Earlier(r, c, di, r0, c0, di0) ==>
        !OccursAt(grid, word, r, c, Directions[di])
    ensures ScanFrom(grid, word, r0, c0, di0).Some? ==>
      var p := ScanFrom(grid, word, r0, c0, di0).value;
      && p.direction in Directions
      && IsSlot(p.startRow, p.startCol, DirIndex(p.direction))
      && !Earlier(p.startRow, p.startCol, DirIndex(p.direction), r0, c0, di0)
      && p == Placement(word, p.startRow, p.startCol, p.direction)
      && OccursAt(grid, word, p.startRow, p.startCol, p.direction)
      && forall r, c, di ::
           (IsSlot(r, c, di) && !Earlier(r, c, di, r0, c0, di0) &&
            Earlier(r, c, di, p.startRow, p.startCol, DirIndex(p.direction))) ==>
           !OccursAt(grid, word, r, c, Directions[di])
  {
    if r0 >= GridSize {
    } else if c0 >= GridSize {
      ScanFromSpec(grid, word, r0 + 1, 0, 0);
    } else if di0 >= |Directions| {
      ScanFromSpec(grid, word, r0, c0 + 1, 0);
    } else if OccursAt(grid, word, r0, c0, Directions[di0]) {
      assert DirIndex(Directions[di0]) == di0;
    } else {
      ScanFromSpec(grid, word, r0, c0, di0 + 1);
    }
  }

  /** The placement found is where the word reads, and no earlier slot
      shows it; there is none exactly when the word reads nowhere. */
  lemma FirstPlacementSpec(grid: seq<seq<Cell>>, word: string)
    requires IsGrid(grid)
    ensures FirstPlacement(grid, word).None? <==>
      forall r, c, di :: IsSlot(r, c, di) ==> !OccursAt(grid, word, r, c, Directions[di])
    ensures FirstPlacement(grid, word).Some? ==>
      var p := FirstPlacement(grid, word).value;
      && p.direction in Directions
      && IsSlot(p.startRow, p.startCol, DirIndex(p.direction))
      && p == Placement(word, p.startRow, p.startCol, p.direction)
      && OccursAt(grid, word, p.startRow, p.startCol, p.direction)
      && forall r, c, di :: IsSlot(r, c, di) && Earlier(r, c, di, p.startRow, p.startCol, DirIndex(p.direction)) ==>
           !OccursAt(grid, word, r, c, Directions[di])
  {
    ScanFromSpec(grid, word, 0, 0, 0);
  }

  /** Advances along the direction while the letters match; the word
      reads there exactly when every letter matched. */
  method ReadsAt(grid: seq<seq<Cell>>, word: string, r: int, c: int, d: Direction) returns (ok: bool)
    requires IsGrid(grid)
    ensures ok <==> OccursAt(grid, word, r, c, d)
  {
    var i := 0;
    while i < |word| && Matches(grid, word, r, c, d, i)
      invariant 0 <= i <= |word|
      invariant forall k :: 0 <= k < i ==> Matches(grid, word, r, c, d, k)
    {
      i := i + 1;
    }
    return i == |word|;
  }

  /** Tries every row, column and direction in that order and stops at the
      first where all the word's letters read. */
  method FindWordPlacement(grid: seq<seq<Cell>>, word: string) returns (p: Option<FoundWord>)
    requires IsGrid(grid)
    ensures p == FirstPlacement(grid, word)
  {
    for r := 0 to GridSize
      invariant FirstPlacement(grid, word) == ScanFrom(grid, word, r, 0, 0)
    {
      for c := 0 to GridSize
        invariant FirstPlacement(grid, word) == ScanFrom(grid, word, r, c, 0)
      {
        for di := 0 to |Directions|
          invariant FirstPlacement(grid, word) == ScanFrom(grid, word, r, c, di)
        {
          var ok := ReadsAt(grid, word, r, c, Directions[di]);
          if ok {
            return Some(Placement(word, r, c, Directions[di]));
          }
        }
      }
    }
    return None;
  }

  /** `Math.floor(Math.random() * n)` for a random value x in [0, 1). */
  function RandomIndex(x: real, n: nat): (i: nat)
    requires 0.0 <= x < 1.0
    ensures n == 0 ==> i == 0
    ensures n > 0 ==> i < n
  {
    ScaleBounds(x, n);
    (x * n as real).Floor
  }

  lemma {:induction false} ScaleBounds(x: real, n: nat)
    requires 0.0 <= x < 1.0
    ensures 0.0 <= x * n as real <= n as real
    ensures n > 0 ==> x * n as real < n as real
  {
    if n > 0 {
      ScaleBounds(x, n - 1);
      assert x * n as real == x * (n - 1) as real + x;
    }
  }

  /** The listed words not found yet, in list order. */
  function Unfound(words: seq<WordData>, found: seq<FoundWord>): (u: seq<WordData>)
    ensures |u| <= |words|
    ensures forall w :: w in u <==> w in words && !IsFound(found, w.word)
  {
    if words == [] then []
    else (if IsFound(found, words[0].word) then [] else [words[0]]) + Unfound(words[1..], found)
  }

  /** Whether a hint is given: hints remain, some word is unfound, and the
      board shows the randomly chosen one. */
  predicate GivesHint(s: GameState, wordRandom: real)
    requires Valid(s) && 0.0 <= wordRandom < 1.0
  {
    var unfound := Unfound(s.words, s.foundWords);
    s.hintsUsed < MaxHints && |unfound| > 0 &&
    FirstPlacement(s.grid, unfound[RandomIndex(wordRandom, |unfound|)].word).Some?
  }

  /** Spends a hint: highlights one randomly chosen letter of a randomly
      chosen unfound word, and nothing else. wordRandom and letterRandom
      stand for the two `Math.random()` draws. */
  function UseHint(s: GameState, wordRandom: real, letterRandom: real): (s': GameState)
    requires Valid(s) && 0.0 <= wordRandom < 1.0 && 0.0 <= letterRandom < 1.0
    ensures !GivesHint(s, wordRandom) ==> s' == s
    ensures s'.words == s.words && s'.foundWords == s.foundWords && s'.score == s.score
    ensures s'.selectedCells == s.selectedCells && s'.isSelecting == s.isSelecting
    ensures s'.currentSelection == s.currentSelection && s'.complete == s.complete
  {
    if s.hintsUsed >= MaxHints then s
    else
      var unfound := Unfound(s.words, s.foundWords);
      if |unfound| == 0 then s
      else
        var word := unfound[RandomIndex(wordRandom, |unfound|)].word;
        match FirstPlacement(s.grid, word)
        case None => s
        case Some(p) =>
          var i := RandomIndex(letterRandom, |word|);
          var hint := Along(p.startRow, p.startCol, p.direction, i);
          s.(grid := HighlightOnly(s.grid, [hint]), hintsUsed := s.hintsUsed + 1)
  }

  /** A hint highlights exactly one cell, on the board, carrying a letter of
      a listed word not found yet, at the place where that word reads; it
      uses up one of the hints and changes no letter and no found flag. */
  lemma UseHintHighlights(s: GameState, wordRandom: real, letterRandom: real)
    requires Valid(s) && 0.0 <= wordRandom < 1.0 && 0.0 <= letterRandom < 1.0
    requires GivesHint(s, wordRandom)
    ensures var s', unfound := UseHint(s, wordRandom, letterRandom), Unfound(s.words, s.foundWords);
      var w := unfound[RandomIndex(wordRandom, |unfound|)];
      var p := FirstPlacement(s.grid, w.word).value;
      var i := RandomIndex(letterRandom, |w.word|);
      var hint := Along(p.startRow, p.startCol, p.direction, i);
      && w in s.words && !IsFound(s.foundWords, w.word)
      && OccursAt(s.grid, w.word, p.startRow, p.startCol, p.direction)
      && Inside(hint)
      && (|w.word| > 0 ==> i < |w.word| && At(s.grid, hint).letter == [w.word[i]])
      && HighlightedExactly(s'.grid, [hint])
      && s'.hintsUsed == s.hintsUsed + 1
      && SameLetters(s.grid, s'.grid) && SameFound(s.grid, s'.grid)
  {
    var unfound := Unfound(s.words, s.foundWords);
    var w := unfound[RandomIndex(wordRandom, |unfound|)];
    assert w in unfound;
    FirstPlacementSpec(s.grid, w.word);
    var p := FirstPlacement(s.grid, w.word).value;
    var i := RandomIndex(letterRandom, |w.word|);
    if |w.word| > 0 {
      assert Matches(s.grid, w.word, p.startRow, p.startCol, p.direction, i);
    }
  }

  /** Hints keep the session valid; at most MaxHints are ever given. */
  lemma UseHintKeepsValid(s: GameState, wordRandom: real, letterRandom: real)
    requires Valid(s) && 0.0 <= wordRandom < 1.0 && 0.0 <= letterRandom < 1.0
    ensures Valid(UseHint(s, wordRandom, letterRandom))
    ensures UseHint(s, wordRandom, letterRandom).hintsUsed <= MaxHints
  {
    var s' := UseHint(s, wordRandom, letterRandom);
    if GivesHint(s, wordRandom) {
      UseHintHighlights(s, wordRandom, letterRandom);
      if s.isSelecting {
        PathTextLetters(s.grid, s'.grid, s.selectedCells);
      }
    }
  }
}
