# Word search and word puzzles, modelled in Dafny

This project models the game logic of a small vocabulary-games web app.

**Word search.** `src/components/WordSearch.tsx` builds a 12×12 board. It places up to five words horizontally, vertically or diagonally (down-right). Words may cross only on equal letters, and the other cells get random letters. The player drags a straight line of cells. On release, the line's letters are checked against the word list, read forwards or backwards. A word not found before scores 3, 2 or 1 points by difficulty, and its cells are marked found. A capped hint highlights one letter of a word not found yet.

**Word puzzles.** `src/components/EnglishPuzzleGame.tsx` deals a word's letters into shuffled pools. The player builds an answer by clicking letters, and the answer is checked without regard to case. The game keeps a score, a streak of correct answers, and a session of ten puzzles.

Modules:

- `Common`: `Option` and the three difficulties.
- `Grid`: board geometry (size, the three directions, positions along a direction) and the board as a value. It defines what "the word reads at (row, col) along d" means, and proves what writing a word does to the board.
- `Generator`: the board as a 2-D array, and the in-place construction methods `CreateEmptyGrid`, `CanPlaceWord`, `PlaceWord`, `FillEmptyCells` and `GenerateGrid`. Each is proved against the value-level definitions in `Grid`.
- `Lines`: `getCellsInLine`, with `Math.round` modelled exactly on rationals. Proved: the line has max(|Δr|, |Δc|) + 1 cells from start to end, and on a straight line each cell is the start plus i unit steps.
- `Selection`: the session record and the press / drag / release transitions. `Valid` is the invariant every transition keeps.
- `Hints`: `findWordPlacement` as a loop proved equal to a first-in-scan-order specification, and `useHint`.
- `TimeFormat`: the `m:ss` clock text and a reader that inverts it.
- `PuzzleGame`: the puzzle record, the Fisher–Yates shuffle, the letter-click handlers, answer checking and the session transitions.

Randomness (`Math.random`) is not modelled as a source of numbers:

- In the construction and shuffle methods, each random draw is an arbitrary choice within the drawn range (`:|`).
- In the pure hint transition, the two draws are parameters in [0, 1). The index is `Math.floor(x * n)`, exactly as the source computes it.

Each React handler is one sequential state transition. The completion flag follows the source's test `foundWords.length + 1 === words.length`, which is evaluated on the state before the update.

## Model

| member | source | states |
|---|---|---|
| Grid.PlacementEnds | src/components/WordSearch.tsx:386-395 | Where a non-empty word reads, the record built for it starts on the cell holding its first letter and ends on a board cell holding its last letter. |
| Grid.WriteWordAt | src/components/WordSearch.tsx:152-160 | Writing a word changes exactly the cells on its path: the cell i steps along gets the word's i-th letter, and every other cell is unchanged. |
| Grid.WriteWordReads | src/components/WordSearch.tsx:152-160 | After the write, the word reads from its start along its direction. |
| Grid.WriteWordKeeps | src/components/WordSearch.tsx:133-160 | A write the placement test accepted keeps every non-empty letter and every flag. |
| Grid.OccursPreserved | src/components/WordSearch.tsx:174-210 | A change that keeps every non-empty letter keeps every readable word readable. |
| Generator.CreateEmptyGrid | src/components/WordSearch.tsx:118-131 | A fresh 12×12 board of empty, unflagged cells. |
| Generator.CanPlaceWord | src/components/WordSearch.tsx:133-150 | True exactly when every cell of the word's path is on the board and is empty or holds that letter. |
| Generator.PlaceWord | src/components/WordSearch.tsx:152-160 | The board afterwards is the value-level write of the word along its path. |
| Generator.FillEmptyCells | src/components/WordSearch.tsx:162-172 | Every empty cell gets one letter A–Z with its flags unchanged, and every non-empty cell is unchanged. |
| Generator.TryPlaceWord | src/components/WordSearch.tsx:180-205 | It makes between 1 and 100 tries, and all 100 when it gives up, leaving the board unchanged. If it places the word, the word fitted the old board at the returned start and direction (one of the three), the new board is exactly the old one with the word written there, and the word reads there. No existing letter changes. |
| Generator.PlaceWords | src/components/WordSearch.tsx:176-206 | Each placement record belongs to a distinct listed word, taken in list order, and that word reads at the record on the board afterwards. A word given up leaves no letter: every letter afterwards was there before or lies on a returned record's path. The board stays unmarked. |
| Generator.PlaceNext | src/components/WordSearch.tsx:179-205 | One word's turn keeps the records in list order and readable, and every letter accounted for, adding the word's record when it finds a place. |
| Generator.CoveredWrite | src/components/WordSearch.tsx:190 | After a word is written, every letter on the board was there before or lies on the path of a record, once the new word's record is added. |
| Generator.GenerateGrid | src/components/WordSearch.tsx:174-210 | The result is a filled 12×12 board with no flags set. Every word that was placed, in word-list order, still reads at its record after later words and the fill. Every cell holds one letter: an A–Z fill letter, or a letter on the path of a placed word. |
| Lines.RoundDiv | src/components/WordSearch.tsx:258-263 | `Math.round(n/d)`: the nearest integer to n/d, with halves rounded up. |
| Lines.RoundDivStep | src/components/WordSearch.tsx:255-263 | On a unit step, rounding is exact: the i-th coordinate is start + i·unit. |
| Lines.LineCellsEnds | src/components/WordSearch.tsx:247-266 | The line has max(|Δr|, |Δc|) + 1 cells, the first at the start and the last at the end. |
| Lines.StraightLineCells | src/components/WordSearch.tsx:247-266 | On a horizontal, vertical or 45° line, cell i is the start plus i unit steps. |
| Lines.StraightLineInside | src/components/WordSearch.tsx:283-294 | Every cell of a straight line between two board cells is on the board. |
| Lines.GetCellsInLine | src/components/WordSearch.tsx:247-266 | The loop returns exactly the line's cells: max(|Δr|, |Δc|) + 1 of them, from start to end, and a single cell when start equals end. |
| Selection.PathTextSpells | src/components/WordSearch.tsx:295 | On a filled board the selection string has one letter per selected cell, each that cell's letter. |
| Selection.FindMatch | src/components/WordSearch.tsx:318-320 | Returns the first listed word equal to the selection or its reverse, or none when no listed word equals either. |
| Selection.BackwardsSameMatch | src/components/WordSearch.tsx:315-320 | Dragging the same letters in the opposite order matches the same word. |
| Selection.PointsForFirst | src/components/WordSearch.tsx:338 | A word scores the points of its first listing: 3 for hard, 2 for medium, 1 for easy. |
| Selection.FoundBound | src/components/WordSearch.tsx:351 | Distinct found words drawn from the list are never more than the list's length, so the count test cannot be overshot. |
| Selection.CompleteIffAllFound | src/components/WordSearch.tsx:350-353 | When no word is listed twice, a valid session is complete exactly when its list is non-empty and every listed word is found. |
| Selection.RepeatedWordBlocksCompletion | src/components/WordSearch.tsx:350-353 | When a word is listed twice, a valid session has fewer found words than listed entries and is never complete. |
| Selection.Points | src/components/WordSearch.tsx:338 | A find scores 1 to 3 points: 3 exactly for hard, 1 exactly for easy (so 2 for medium). |
| Selection.Reverse | src/components/WordSearch.tsx:316 | The reversed selection has the same length, and its i-th letter is the selection's i-th letter from the end. |
| Selection.ReverseReverse | src/components/WordSearch.tsx:316 | Reversing twice gives back the selection. |
| Selection.ReverseSameLetters | src/components/WordSearch.tsx:316 | The reversed selection has the same letters with the same counts. |
| Selection.MouseDown | src/components/WordSearch.tsx:268-281 | Press: the session stays valid. The pressed cell is the whole selection and its letter is the selection string. No cell is highlighted. Letters, found flags and scores are unchanged. |
| Selection.MouseEnter | src/components/WordSearch.tsx:283-309 | A drag that is not a straight line from the anchor, or that happens without a press, changes nothing. No drag changes the words, the scores or the completion flag. |
| Selection.MouseEnterSelectsLine | src/components/WordSearch.tsx:283-309 | On a straight drag:<br>• the selection is the line from the anchor to the cell, one unit step at a time;<br>• exactly those cells are highlighted;<br>• the selection string is their letters in order. |
| Selection.MouseEnterKeepsValid | src/components/WordSearch.tsx:283-309 | A drag keeps the session valid and changes no letter and no found flag. |
| Selection.MouseUp | src/components/WordSearch.tsx:311-368 | Release without a press changes nothing. A release drops the selection and stops selecting, and keeps the words and the hint count. |
| Selection.MouseUpClears | src/components/WordSearch.tsx:340-367 | After a release no cell is highlighted, no letter has changed and no found flag is cleared. |
| Selection.MouseUpAwards | src/components/WordSearch.tsx:322-353 | An awarded release:<br>• the selection spells the word forwards or backwards, and the word was not found yet;<br>• exactly one record, from the first to the last selected cell, is appended;<br>• the score rises by the word's points;<br>• every selected cell becomes found, and every other cell keeps its found flag;<br>• the game is complete exactly when the number of found words reaches the number of listed entries, which for a list without repeats means every word is found (CompleteIffAllFound). |
| Selection.MouseUpNoAward | src/components/WordSearch.tsx:354-360 | A release that matches nothing, or matches a word already found, changes neither the found words, the score, the found flags nor the completion flag. |
| Selection.AwardKeepsLists | src/components/WordSearch.tsx:336-338 | Appending the first listed match, not found yet, keeps the found words distinct and listed, and the score's sum gains that word's points. |
| Selection.MouseUpKeepsValid | src/components/WordSearch.tsx:311-368 | A release keeps the session valid. In particular, the score stays the sum of the found words' points and the found words stay distinct. |
| Selection.NoSecondAward | src/components/WordSearch.tsx:322 | Once a word has been awarded, releasing the same letters again, in either order, awards nothing. |
| Selection.StartGame | src/components/WordSearch.tsx:212-233 | The new session uses the category's first five words and a generated board. It starts valid, with nothing found, no score, no hints and no selection. Every placed word is a listed word that reads on the board. Every cell holds one letter: an A–Z fill letter, or a letter on the path of a placed word. |
| Hints.ScanFromSpec | src/components/WordSearch.tsx:370-402 | Scanning from a slot finds the first slot at or after it, in row, column, direction order, where the word reads. It finds nothing exactly when the word reads at no such slot. |
| Hints.FirstPlacementSpec | src/components/WordSearch.tsx:370-402 | The placement found reads the word, and no earlier slot does. There is none exactly when the word reads nowhere. |
| Hints.ReadsAt | src/components/WordSearch.tsx:377-386 | The while loop runs to the word's end exactly when the word reads from that cell along that direction. |
| Hints.FindWordPlacement | src/components/WordSearch.tsx:370-402 | The nested loops return the first placement in scan order, or none. |
| Hints.RandomIndex | src/components/WordSearch.tsx:412-418 | `Math.floor(x * n)` for x in [0, 1) is an index below n, or 0 when n is 0. |
| Hints.Unfound | src/components/WordSearch.tsx:407-409 | Keeps exactly the listed words not found yet. |
| Hints.UseHint | src/components/WordSearch.tsx:404-434 | No hint, and no change, when three hints are used, every word is found, or the chosen word is not on the board. A hint never changes the words, the found words, the score or the selection. |
| Hints.UseHintHighlights | src/components/WordSearch.tsx:404-434 | A hint:<br>• exactly one board cell is highlighted;<br>• it lies on the placement of a listed, unfound word and carries that word's letter at the chosen index;<br>• one hint is used up;<br>• letters and found flags are unchanged. |
| Hints.UseHintKeepsValid | src/components/WordSearch.tsx:405 | Hints keep the session valid and never exceed three. |
| TimeFormat.Digits | src/components/WordSearch.tsx:244 | Decimal text: at least one digit, no leading zero (0 is exactly "0"), at most two digits below 100. |
| TimeFormat.DigitsRoundTrip | src/components/WordSearch.tsx:244 | The digits read back as the number. |
| TimeFormat.PadStart2 | src/components/WordSearch.tsx:244 | Short text is left-padded with '0' to two characters, and longer text is kept. |
| TimeFormat.PadKeepsValue | src/components/WordSearch.tsx:244 | Padding one or two digits to two characters keeps their value. |
| TimeFormat.ParseJoined | src/components/WordSearch.tsx:244 | Minutes text, a colon and a two-digit seconds field below sixty read back as minutes · 60 + seconds. |
| TimeFormat.MinutesSecondsRoundTrip | src/components/WordSearch.tsx:242-244 | The text for q minutes and r < 60 seconds reads back as q · 60 + r. |
| TimeFormat.FormatTime | src/components/WordSearch.tsx:241-245 | The clock text is digits, a colon, and exactly two digits. It starts with 0 exactly under a minute, and then the minutes are exactly "0". Reading it back gives the seconds (FormatTimeRoundTrip). |
| TimeFormat.FormatTimeRoundTrip | src/components/WordSearch.tsx:241-245 | Reading `m:ss` back gives the elapsed seconds. |
| TimeFormat.FormatTimeInjective | src/components/WordSearch.tsx:241-245 | Different elapsed times are shown differently. |
| PuzzleGame.ShuffleArray | src/components/EnglishPuzzleGame.tsx:131-138 | The swap loop returns a rearrangement of its input: same length, same letters with the same counts. The input is a value and is not changed. |
| PuzzleGame.SwapKeepsLetters | src/components/EnglishPuzzleGame.tsx:136 | Swapping two positions keeps every letter's count. |
| PuzzleGame.RemoveAt | src/components/EnglishPuzzleGame.tsx:178-186 | Removing a position keeps the other letters in order and loses exactly that letter. An index past the end removes nothing. |
| PuzzleGame.HandleLetterClick | src/components/EnglishPuzzleGame.tsx:171-195 | No change once a result is shown. Deselecting moves the tile from chosen to the end of available. Selecting moves it from available to the end of chosen. The answer is the chosen tiles. Nothing else changes. |
| PuzzleGame.LetterClickConserves | src/components/EnglishPuzzleGame.tsx:171-195 | Clicking a shown tile keeps the word's letters shared out between chosen and available tiles, with the answer equal to the chosen tiles. |
| PuzzleGame.HandleScrambleClick | src/components/EnglishPuzzleGame.tsx:197-207 | The letter is appended to the answer and exactly its position is removed from the pool. There is no result check. Nothing else changes. |
| PuzzleGame.ScrambleClickConserves | src/components/EnglishPuzzleGame.tsx:197-207 | Clicking a pool letter moves it from the pool to the answer: no letter is gained or lost. |
| PuzzleGame.UpperEqualIff | src/components/EnglishPuzzleGame.tsx:229 | Upper-cased strings are equal exactly when the strings agree letter by letter, ignoring ASCII case. |
| PuzzleGame.SubmitAnswer | src/components/EnglishPuzzleGame.tsx:226-239 | No change without a puzzle or with an empty answer. Otherwise:<br>• the result is shown;<br>• the answer is correct exactly when it is the word ignoring case;<br>• a correct answer adds one point and extends the streak, and a wrong one resets the streak to 0;<br>• the puzzle count always rises by one;<br>• 0 ≤ streak ≤ score ≤ count is kept;<br>• nothing else changes. |
| PuzzleGame.SubmitOwnWord | src/components/EnglishPuzzleGame.tsx:229 | Submitting the word in any case is correct and extends the streak. |
| PuzzleGame.TransposedAnswerWrong | src/components/EnglishPuzzleGame.tsx:229-236 | "PUZLZE" for "PUZZLE" is wrong and resets the streak. |
| PuzzleGame.LoadNextPuzzle | src/components/EnglishPuzzleGame.tsx:152-169 | A catalog puzzle of a drawn type (scramble, tiles or match). Both pools hold exactly the word's letters. The answer, the chosen tiles, the result and the hint are cleared. Nothing else changes (Dealt). |
| PuzzleGame.ClearAnswer | src/components/EnglishPuzzleGame.tsx:209-224 | The answer is emptied and the current type's pool is re-dealt with exactly the word's letters. The tile types also drop the chosen tiles. The other pool is unchanged, and so is everything else. |
| PuzzleGame.NextPuzzle | src/components/EnglishPuzzleGame.tsx:241-247 | From the tenth counted puzzle on, the session ends and nothing else changes. Before that, a fresh puzzle is dealt as by LoadNextPuzzle (Dealt), and the counters are kept. |
| PuzzleGame.StartGame | src/components/EnglishPuzzleGame.tsx:140-150 | Counters and hints start at zero, the session is started, and the first puzzle is dealt as by LoadNextPuzzle (Dealt): a catalog puzzle of a drawn type with the result and hint cleared. |

## Left out

- Randomness: `Math.random` is not modelled as a source. Its draws are arbitrary choices within their ranges (direction, row and column in `generateGrid`; fill letter; shuffle index; puzzle and type draw), or parameters in [0, 1) (`useHint`). No claim is made about the distribution.
- The one-second timer (`useEffect`/`setInterval`) is a clock side effect. `timeElapsed` is only set to 0 at the start and formatted.
- React's asynchronous state batching: each handler is one sequential transition on the state it reads.
- Rendering, styling, `getDifficultyColor`, the category and puzzle catalogs (the catalog is a parameter), `resetGame`, and the puzzle game's `useHint` (a flag plus a counter) are not modelled. `src/app/page.tsx` and `src/components/Bubble.tsx` are layout and external links only, and are not part of this model.
- The direction of a placement is kept as an integer pair, not as the string `"dRow,dCol"` that is split back into numbers.
- Lines.LineCells: the rounding uses exact rational arithmetic. Floating-point error in `i * (delta / steps)` is not modelled.
- Generator.GenerateGrid: the source discards the placement records it builds. The model returns them, to state where each placed word reads.
- Generator.PlaceWord: requires the direction to be one of the three of the board. Every caller passes one of those.
- Completion compares the number of found words with the number of listed entries. A word listed twice can be found only once, so such a session never completes (Selection.RepeatedWordBlocksCompletion). The model keeps this behaviour. The built-in word lists have no repeats.
- Cells carry an `isSelected` flag that no handler ever sets. The model keeps it and never changes it.
- PuzzleGame.SubmitAnswer: `toUpperCase` is modelled for ASCII letters only, and letters are single characters.
- PuzzleGame.LetterClickConserves and PuzzleGame.ScrambleClickConserves assume that the clicked letter is the one shown at the clicked position, which is what the buttons pass. The handlers themselves are modelled for any letter and index.
