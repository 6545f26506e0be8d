/** The word-puzzle game: letter pools for the scramble and tile puzzles,
    answer checking with score and streak, and the ten-puzzle session. */
module PuzzleGame {
  import opened Common

  datatype PuzzleType = Scramble | Tiles | Match | Fill

  datatype Puzzle = Puzzle(id: int, word: string, definition: string, difficulty: Difficulty, hint: Option<string>)

  /** The game record plus the two separate flags kept beside it. Letters
      are single characters; joining a list of them is the list itself. */
  datatype PuzzleState = PuzzleState(
    currentPuzzle: Option<Puzzle>,
    puzzleType: PuzzleType,
    userAnswer: string,
    scrambledLetters: seq<char>,
    availableLetters: seq<char>,
    selectedLetters: seq<char>,
    showResult: bool,
    isCorrect: bool,
    score: int,
    puzzleCount: int,
    streak: int,
    hintsUsed: int,
    gameStarted: bool,
    showHint: bool)

  /** Puzzles per session. */
  const PuzzlesPerGame: int := 10

  /** The types a new puzzle is drawn from ("fill" is never drawn). */
  const DrawnTypes: seq<PuzzleType> := [Scramble, Tiles, Match]

  /** Score, streak and puzzle count stay ordered: a streak is a run of
      correct answers and every answer counts one puzzle. */
  predicate Counters(s: PuzzleState) {
    0 <= s.streak <= s.score <= s.puzzleCount && 0 <= s.hintsUsed
  }

  /** The scramble pool and the answer typed so far share out the word's letters. */
  predicate ScrambleInv(s: PuzzleState) {
    s.currentPuzzle.Some? &&
    multiset(s.userAnswer) + multiset(s.scrambledLetters) == multiset(s.currentPuzzle.value.word)
  }

  /** The tiles share out the word's letters between the chosen and the
      available ones, and the answer is the chosen tiles in order. */
  predicate TilesInv(s: PuzzleState) {
    s.currentPuzzle.Some? &&
    s.userAnswer == s.selectedLetters &&
    multiset(s.selectedLetters) + multiset(s.availableLetters) == multiset(s.currentPuzzle.value.word)
  }

  // ---------------------------------------------------------------------
  // Shuffling

  /** Fisher–Yates on a copy: from the last position down, each position
      swaps with a random one at or before it. The result is a
      rearrangement of the input. */
  method ShuffleArray(input: seq<char>) returns (shuffled: seq<char>)
    ensures |shuffled| == |input|
    ensures multiset(shuffled) == multiset(input)
  {
    var a := new char[|input|](k requires 0 <= k < |input| => input[k]);
    assert a[..] == input;
    var i := a.Length - 1;
    while i > 0
      invariant i < a.Length
      invariant multiset(a[..]) == multiset(input)
    {
      var j :| 0 <= j <= i;
      ghost var before := a[..];
      a[i], a[j] := a[j], a[i];
      assert a[..] == Swapped(before, i, j);
      SwapKeepsLetters(before, i, j);
      i := i - 1;
    }
    shuffled := a[..];
  }

  function Swapped(s: seq<char>, i: nat, j: nat): seq<char>
    requires i < |s| && j < |s|
  {
    s[i := s[j]][j := s[i]]
  }

  /** Swapping two positions keeps every letter's count. */
  lemma SwapKeepsLetters(s: seq<char>, i: nat, j: nat)
    requires i < |s| && j < |s|
    ensures multiset(Swapped(s, i, j)) == multiset(s)
  {
    var t := s[i := s[j]];
    assert multiset(t) == multiset(s) - multiset{s[i]} + multiset{s[j]};
    assert multiset(t[j := s[i]]) == multiset(t) - multiset{t[j]} + multiset{s[i]};
  }

  // ---------------------------------------------------------------------
  // Letter moves

  /** The list without position i (`splice(i, 1)` on a copy, or the filter
      on `i !== index`); an index past the end removes nothing. */
  function RemoveAt(s: seq<char>, i: nat): (r: seq<char>)
    ensures i < |s| ==> |r| == |s| - 1 && multiset(r) + multiset{s[i]} == multiset(s)
    ensures i < |s| ==> forall k :: 0 <= k < |r| ==> r[k] == if k < i then s[k] else s[k + 1]
    ensures i >= |s| ==> r == s
  {
    if i < |s| then
      assert s == s[..i] + [s[i]] + s[i + 1..];
      s[..i] + s[i + 1..]
    else s
  }

  /** A tile click. Nothing happens once a result is shown. A chosen tile
      goes back to the end of the available ones; an available tile goes to
      the end of the chosen ones. The answer is the chosen tiles. */
  function HandleLetterClick(s: PuzzleState, letter: char, index: nat, isSelected: bool): (s': PuzzleState)
    ensures s.showResult ==> s' == s
    ensures !s.showResult ==> s'.userAnswer == s'.selectedLetters
    ensures !s.showResult && isSelected ==>
      s'.selectedLetters == RemoveAt(s.selectedLetters, index) && s'.availableLetters == s.availableLetters + [letter]
    ensures !s.showResult && !isSelected ==>
      s'.selectedLetters == s.selectedLetters + [letter] && s'.availableLetters == RemoveAt(s.availableLetters, index)
    ensures s'.scrambledLetters == s.scrambledLetters && s'.currentPuzzle == s.currentPuzzle
    ensures s'.score == s.score && s'.streak == s.streak && s'.puzzleCount == s.puzzleCount
    ensures s'.(selectedLetters := s.selectedLetters, availableLetters := s.availableLetters,
                userAnswer := s.userAnswer) == s
  {
    if s.showResult then s
    else if isSelected then
      var selected := RemoveAt(s.selectedLetters, index);
      s.(selectedLetters := selected, availableLetters := s.availableLetters + [letter], userAnswer := selected)
    else
      var selected := s.selectedLetters + [letter];
      s.(selectedLetters := selected, availableLetters := RemoveAt(s.availableLetters, index), userAnswer := selected)
  }

  /** A scramble click appends the letter to the answer and takes its
      position out of the pool. There is no result check here. */
  function HandleScrambleClick(s: PuzzleState, letter: char, index: nat): (s': PuzzleState)
    ensures s'.userAnswer == s.userAnswer + [letter]
    ensures s'.scrambledLetters == RemoveAt(s.scrambledLetters, index)
    ensures s'.availableLetters == s.availableLetters && s'.selectedLetters == s.selectedLetters
    ensures s'.currentPuzzle == s.currentPuzzle && s'.showResult == s.showResult
    ensures s'.score == s.score && s'.streak == s.streak && s'.puzzleCount == s.puzzleCount
    ensures s'.(userAnswer := s.userAnswer, scrambledLetters := s.scrambledLetters) == s
  {
    s.(userAnswer := s.userAnswer + [letter], scrambledLetters := RemoveAt(s.scrambledLetters, index))
  }

  /** Clicking a shown tile (the letter at the clicked position) keeps the
      word's letters shared out between chosen and available tiles. */
  lemma LetterClickConserves(s: PuzzleState, index: nat, isSelected: bool)
    requires TilesInv(s)
    requires isSelected ==> index < |s.selectedLetters|
    requires !isSelected ==> index < |s.availableLetters|
    ensures var letter := if isSelected then s.selectedLetters[index] else s.availableLetters[index];
      TilesInv(HandleLetterClick(s, letter, index, isSelected))
  {
    var letter := if isSelected then s.selectedLetters[index] else s.availableLetters[index];
    var s' := HandleLetterClick(s, letter, index, isSelected);
    if !s.showResult {
      if isSelected {
        assert multiset(s'.selectedLetters) + multiset{letter} == multiset(s.selectedLetters);
      } else {
        assert multiset(s'.availableLetters) + multiset{letter} == multiset(s.availableLetters);
      }
    }
  }

  /** Clicking a pool letter (the letter at the clicked position) moves it
      from the pool to the answer: no letter is gained or lost. */
  lemma ScrambleClickConserves(s: PuzzleState, index: nat)
    requires ScrambleInv(s) && index < |s.scrambledLetters|
    ensures ScrambleInv(HandleScrambleClick(s, s.scrambledLetters[index], index))
  {
    var letter := s.scrambledLetters[index];
    var s' := HandleScrambleClick(s, letter, index);
    assert multiset(s'.scrambledLetters) + multiset{letter} == multiset(s.scrambledLetters);
    assert multiset(s'.userAnswer) == multiset(s.userAnswer) + multiset{letter};
  }

  // ---------------------------------------------------------------------
  // Answers

  /** ASCII upper case of one character. */
  function UpperChar(ch: char): char {
    if 'a' <= ch <= 'z' then (ch as int - 32) as char else ch
  }

  function Upper(s: string): (u: string)
    ensures |u| == |s|
  {
    seq(|s|, i requires 0 <= i < |s| => UpperChar(s[i]))
  }

  /** Two characters that are the same letter in either case. */
  predicate SameLetterIgnoringCase(x: char, y: char) {
    x == y || ('a' <= x <= 'z' && y as int == x as int - 32) || ('a' <= y <= 'z' && x as int == y as int - 32)
  }

  /** The same word in any mix of ASCII cases. */
  predicate SameIgnoringCase(a: string, b: string) {
    |a| == |b| && forall i :: 0 <= i < |a| ==> SameLetterIgnoringCase(a[i], b[i])
  }

  /** Comparing upper-cased strings is comparing character by character
      without regard to ASCII case. */
  lemma {:induction false} UpperEqualIff(a: string, b: string)
    ensures Upper(a) == Upper(b) <==> SameIgnoringCase(a, b)
  {
    if |a| == |b| {
      if Upper(a) == Upper(b) {
        forall i | 0 <= i < |a| ensures SameLetterIgnoringCase(a[i], b[i]) {
          assert Upper(a)[i] == Upper(b)[i];
        }
      }
      if forall i :: 0 <= i < |a| ==> SameLetterIgnoringCase(a[i], b[i]) {
        forall i | 0 <= i < |a| ensures Upper(a)[i] == Upper(b)[i] {
          assert SameLetterIgnoringCase(a[i], b[i]);
        }
      }
    }
  }

  /** Checks a non-empty answer against the current word. A correct answer
      adds a point and extends the streak; a wrong one breaks the streak;
      either way one more puzzle is counted and the result is shown. */
  function SubmitAnswer(s: PuzzleState): (s': PuzzleState)
    ensures s.currentPuzzle.None? || s.userAnswer == "" ==> s' == s
    ensures s.currentPuzzle.Some? && s.userAnswer != "" ==>
      && s'.showResult
      && (s'.isCorrect <==> SameIgnoringCase(s.userAnswer, s.currentPuzzle.value.word))
      && s'.score == (if s'.isCorrect then s.score + 1 else s.score)
      && s'.streak == (if s'.isCorrect then s.streak + 1 else 0)
      && s'.puzzleCount == s.puzzleCount + 1
    ensures Counters(s) ==> Counters(s')
    ensures s'.currentPuzzle == s.currentPuzzle && s'.userAnswer == s.userAnswer
    ensures s'.(showResult := s.showResult, isCorrect := s.isCorrect, score := s.score,
                streak := s.streak, puzzleCount := s.puzzleCount) == s
  {
    if s.currentPuzzle.None? || s.userAnswer == "" then s
    else
      var correct := Upper(s.userAnswer) == Upper(s.currentPuzzle.value.word);
      UpperEqualIff(s.userAnswer, s.currentPuzzle.value.word);
      s.(showResult := true,
         isCorrect := correct,
         score := if correct then s.score + 1 else s.score,
         streak := if correct then s.streak + 1 else 0,
         puzzleCount := s.puzzleCount + 1)
  }

  /** Submitting the word itself, in any case, is correct. */
  lemma SubmitOwnWord(s: PuzzleState)
    requires s.currentPuzzle.Some? && s.userAnswer != ""
    requires Upper(s.userAnswer) == Upper(s.currentPuzzle.value.word)
    ensures SubmitAnswer(s).isCorrect && SubmitAnswer(s).streak == s.streak + 1
  {
  }

  /** A rearranged answer of the right letters is still wrong unless it
      spells the word: "PUZLZE" for "PUZZLE". */
  lemma TransposedAnswerWrong(s: PuzzleState)
    requires s.currentPuzzle.Some? && s.currentPuzzle.value.word == "PUZZLE" && s.userAnswer == "PUZLZE"
    ensures !SubmitAnswer(s).isCorrect && SubmitAnswer(s).streak == 0
  {
    assert !SameLetterIgnoringCase(s.userAnswer[3], s.currentPuzzle.value.word[3]);
  }

  // ---------------------------------------------------------------------
  // Session

  /** s' is s with a fresh puzzle dealt: a catalog puzzle of a drawn type,
      both letter pools a rearrangement of its word, and the answer, the
      chosen tiles, the result and the hint cleared. Nothing else changes. */
  predicate Dealt(s: PuzzleState, s': PuzzleState, catalog: seq<Puzzle>) {
    && s'.currentPuzzle.Some? && s'.currentPuzzle.value in catalog
    && s'.puzzleType in DrawnTypes
    && s'.userAnswer == "" && s'.selectedLetters == [] && !s'.showResult && !s'.isCorrect && !s'.showHint
    && multiset(s'.scrambledLetters) == multiset(s'.currentPuzzle.value.word)
    && multiset(s'.availableLetters) == multiset(s'.currentPuzzle.value.word)
    && s'.(currentPuzzle := s.currentPuzzle, puzzleType := s.puzzleType, userAnswer := s.userAnswer,
           scrambledLetters := s.scrambledLetters, availableLetters := s.availableLetters,
           selectedLetters := s.selectedLetters, showResult := s.showResult, isCorrect := s.isCorrect,
           showHint := s.showHint) == s
  }

  /** Draws a puzzle and a type, deals both letter pools freshly shuffled
      from the word, and clears the answer, the result and the hint. */
  method LoadNextPuzzle(s: PuzzleState, catalog: seq<Puzzle>) returns (s': PuzzleState)
    requires |catalog| > 0
    ensures s'.currentPuzzle.Some? && s'.currentPuzzle.value in catalog
    ensures s'.puzzleType in DrawnTypes
    ensures s'.userAnswer == "" && s'.selectedLetters == [] && !s'.showResult && !s'.isCorrect && !s'.showHint
    ensures ScrambleInv(s') && TilesInv(s')
    ensures multiset(s'.scrambledLetters) == multiset(s'.currentPuzzle.value.word)
    ensures multiset(s'.availableLetters) == multiset(s'.currentPuzzle.value.word)
    ensures s'.score == s.score && s'.streak == s.streak && s'.puzzleCount == s.puzzleCount
    ensures s'.hintsUsed == s.hintsUsed && s'.gameStarted == s.gameStarted
    ensures Dealt(s, s', catalog)
  {
    var k :| 0 <= k < |catalog|;
    var t :| t in DrawnTypes;
    var puzzle := catalog[k];
    var scrambled := ShuffleArray(puzzle.word);
    var available := ShuffleArray(puzzle.word);
    s' := s.(currentPuzzle := Some(puzzle), puzzleType := t, userAnswer := "",
             scrambledLetters := scrambled, availableLetters := available, selectedLetters := [],
             showResult := false, isCorrect := false, showHint := false);
  }

  /** Empties the answer and deals the puzzle's letters again, shuffled,
      into the pool of the current type; the tile types also drop the chosen
      tiles. Without a puzzle the pool is empty. */
  method ClearAnswer(s: PuzzleState) returns (s': PuzzleState)
    ensures s'.userAnswer == ""
    ensures var word := if s.currentPuzzle.Some? then s.currentPuzzle.value.word else "";
      if s.puzzleType == Scramble then
        multiset(s'.scrambledLetters) == multiset(word) &&
        s'.availableLetters == s.availableLetters && s'.selectedLetters == s.selectedLetters
      else
        multiset(s'.availableLetters) == multiset(word) && s'.selectedLetters == [] &&
        s'.scrambledLetters == s.scrambledLetters
    ensures s.currentPuzzle.Some? ==> if s.puzzleType == Scramble then ScrambleInv(s') else TilesInv(s')
    ensures s'.currentPuzzle == s.currentPuzzle && s'.puzzleType == s.puzzleType && s'.showResult == s.showResult
    ensures s'.score == s.score && s'.streak == s.streak && s'.puzzleCount == s.puzzleCount
    ensures s'.(userAnswer := s.userAnswer, scrambledLetters := s.scrambledLetters,
                availableLetters := s.availableLetters, selectedLetters := s.selectedLetters) == s
  {
    var word := if s.currentPuzzle.Some? then s.currentPuzzle.value.word else "";
    var pool := ShuffleArray(word);
    if s.puzzleType == Scramble {
      s' := s.(userAnswer := "", scrambledLetters := pool);
    } else {
      s' := s.(userAnswer := "", selectedLetters := [], availableLetters := pool);
    }
  }

  /** After the tenth counted puzzle the session ends; before it, the next
      puzzle is loaded. */
  method NextPuzzle(s: PuzzleState, catalog: seq<Puzzle>) returns (s': PuzzleState)
    requires |catalog| > 0
    ensures s.puzzleCount >= PuzzlesPerGame ==> s' == s.(gameStarted := false)
    ensures s.puzzleCount < PuzzlesPerGame ==>
      s'.gameStarted == s.gameStarted && s'.currentPuzzle.Some? && s'.currentPuzzle.value in catalog &&
      s'.userAnswer == "" && !s'.showResult && ScrambleInv(s') && TilesInv(s')
    ensures s.puzzleCount < PuzzlesPerGame ==> Dealt(s, s', catalog)
    ensures s'.score == s.score && s'.streak == s.streak && s'.puzzleCount == s.puzzleCount
  {
    if s.puzzleCount >= PuzzlesPerGame {
      return s.(gameStarted := false);
    }
    s' := LoadNextPuzzle(s, catalog);
  }

  /** A new session: counters at zero, then the first puzzle. */
  method StartGame(s: PuzzleState, catalog: seq<Puzzle>) returns (s': PuzzleState)
    requires |catalog| > 0
    ensures s'.gameStarted && Counters(s')
    ensures s'.score == 0 && s'.puzzleCount == 0 && s'.streak == 0 && s'.hintsUsed == 0
    ensures s'.currentPuzzle.Some? && s'.userAnswer == "" && !s'.showResult && ScrambleInv(s') && TilesInv(s')
    ensures Dealt(s.(gameStarted := true, score := 0, puzzleCount := 0, streak := 0, hintsUsed := 0), s', catalog)
  {
    s' := LoadNextPuzzle(s.(gameStarted := true, score := 0, puzzleCount := 0, streak := 0, hintsUsed := 0), catalog);
  }
}
