# Wordle clone: guess classification, validation and end of game

This project models the game logic of a browser Wordle clone (`src/script.js`).
The player types a word of the target's length. Submitting it is refused when
it is too short ("Not enough letters") or not in the dictionary ("Not a word").
Otherwise every tile flips to one of three states: `correct` (right letter,
right place), `wrong-location` (the letter is in the target elsewhere) or
`wrong`. The game is won when the guess equals the target and lost when the
board has no empty tile left.

The heart of the program is `checkLettersPositions`. It fills two module-level
arrays, `correctIndexes` and `wrongLocationIndexes`, in three passes:
1. It empties both arrays and pushes every position where the guess and the
   target agree.
2. It overwrites those positions with the sentinel `-` in a copy of the guess
   and with `@` in a copy of the target.
3. For each remaining position, if the guess letter still occurs in the
   rewritten target, it replaces the leftmost occurrence there with `@` and
   pushes the position.

Three modules:

- `Strings` holds `setCharAt` and the two string built-ins the classifier uses.
  `includes` is Dafny's `in` and `indexOf` is `IndexOf`.
- `Classifier` holds a declarative reference meaning of a verdict. `StateAt`
  marks position `i` as in the wrong location when it is not an exact match
  and its letter has fewer earlier unmatched copies in the guess than there
  are unmatched copies in the target. `Classify` lists, in ascending order, the
  positions of each state. The lemmas prove what the game relies on:
  - both lists are exact and strictly ascending;
  - they are disjoint;
  - letters are not double counted: the flagged letters are the multiset
    intersection of guess and target;
  - the special cases (the target against itself, no shared letter, a
    repeated-letter example) come out as expected.
- `Game` holds the page state as class `Game.Board`. Its fields are the two
  arrays and its constants are the word data. `CheckLettersPositions` is
  imperative, with the source's three loops split over three helper methods in
  the order written. It is proved to leave exactly `Classify(guess, target)`
  behind. `Game` also holds the validation order of `submitGuess` and the
  win/lose decision of `checkWinLose`.

The word data (target word, word length and dictionary) normally comes from a
separate data module. Here it is the constructor's parameters, with the
dictionary as a set of words. A typed word is taken to be a sequence of the
lowercase letters `a`–`z`. Keyboard input is filtered by `^[a-z]$`
(`src/script.js:52`). Clicks on the on-screen keyboard pass the key's
`data-key` value to `pressKey` unfiltered, apart from lowercasing
(`src/script.js:28-29`, `src/script.js:63`). The page markup that defines those
keys is not part of this model, so the model relies on the on-screen keys
carrying only the letters `a`–`z`. This is what keeps the sentinels `-` and `@`
from clashing with a real letter.

The classifier needs the guess and the target to have the same length.
`submitGuess` refuses any guess whose tile count differs from `data.wordLength`
(`src/script.js:85`). That guarantees the target's length only because the data
module is taken to supply a target of exactly `wordLength` letters. The data
module is not part of this model, so the `Game.Board` constructor requires
`|targetWord| == wordLength`, and `Game.Board.Valid` records it.

`src/script.js` keeps no guess history, has no "already tried" rejection,
saves no game state and builds no share summary, so none of these is modelled.

## Model

| member | source | states |
|---|---|---|
| Strings.SetCharAt | src/script.js:130-133 | An index past the last character returns the string unchanged. Otherwise the result has the same length, holds `chr` at the index and agrees with the input at every other position. |
| Strings.SetCharAtMultiset | src/script.js:130-133 | Replacing one character swaps exactly one occurrence: the multiset of characters loses the old character and gains `chr`. |
| Strings.IndexOf | src/script.js:121-122 | The result is -1 exactly when the character is absent. Otherwise it is a position holding the character with no earlier occurrence (the leftmost one). |
| Strings.LowercaseNoSentinel | src/script.js:52 | A typed word (letters `a`–`z` only) never contains the sentinels `-` or `@`. |
| Classifier.PositionsInSpec | src/script.js:111-127 | A position is in the list for a state exactly when it is below the bound and has that state. The list is strictly ascending. |
| Classifier.CorrectIndexesExact | src/script.js:111-112 | `correctIndexes` holds exactly the positions where guess and target agree, once each, in ascending order. |
| Classifier.WrongLocationIndexesExact | src/script.js:119-127 | `wrongLocationIndexes` holds exactly the wrong-location positions, in ascending order, each below the word length. |
| Classifier.IndexesDisjoint | src/script.js:119-120 | No position is both correct and in the wrong location; the second pass skips exact matches. |
| Classifier.TileStateOf | src/script.js:146-155 | A tile is correct iff its index is a correct index; wrong-location iff it is not and is a wrong-location index; wrong iff it is in neither list. So each tile gets exactly one state. |
| Classifier.TileStateMeaning | src/script.js:146-155 | With the lists the classifier produces, a tile is correct iff its letter matches the target there; wrong-location iff the position is in the wrong location; wrong iff neither. |
| Classifier.GuessLetterCount | src/script.js:111-112 | Each letter's count in the guess is its exact matches plus its unmatched guess copies. |
| Classifier.TargetLetterCount | src/script.js:111-112 | Each letter's count in the target is its exact matches plus its unmatched target copies. |
| Classifier.FlaggedCount | src/script.js:111-127 | For each letter, the flagged copies are its exact matches plus the smaller of its unmatched guess copies and its unmatched target copies. |
| Classifier.NoDoubleCounting | src/script.js:114-126 | The multiset of flagged letters (correct or wrong location) is the multiset intersection of guess and target, so no letter is flagged more often than the target holds it. |
| Classifier.ClassifySelf | src/script.js:111-127 | The target classified against itself gives every position correct in order, and no wrong-location position. |
| Classifier.AllCorrectIff | src/script.js:111-112 | Every position is correct exactly when the guess equals the target. |
| Classifier.NoCommonLetters | src/script.js:111-127 | A guess sharing no letter with the target leaves both lists empty. |
| Classifier.SpeedErase | src/script.js:103-128 | Repeated letters: guess "erase" against target "speed" gives no correct position and wrong-location positions 0, 3 and 4. |
| Game.ValidateGuess | src/script.js:84-97 | A wrong length is rejected as "Not enough letters" before the dictionary is consulted. A right-length word outside the dictionary is rejected as "Not a word". Otherwise the guess is accepted. |
| Game.CheckWinLose | src/script.js:212-224 | The game is won iff the guess equals the target, even on the last row. It is lost iff the guess differs and the board is full. Otherwise it goes on. |
| Game.WinIffAllCorrect | src/script.js:212-213 | The game is won by a guess exactly when the classifier marks every one of its positions correct. |
| Game.Board.constructor | src/script.js:3-10 | Requires the target to have exactly `wordLength` letters, an assumption about the data module. Ensures the board holds the given word data, both index arrays start empty, and `Valid()` holds. |
| Game.Board.CheckLettersPositions | src/script.js:103-128 | After the call, both arrays hold exactly the reference verdict for this guess and the target, whatever they held before. |
| Game.Board.RecordExactMatches | src/script.js:108-112 | The first loop leaves `correctIndexes` equal to the ascending list of exact-match positions. |
| Game.Board.MaskExactMatches | src/script.js:114-117 | The sentinel pass yields the guess with `-` and the target with `@` at every exact match, and the original letters elsewhere. |
| Game.Board.RecordWrongLocations | src/script.js:119-127 | The second loop, which consumes the leftmost remaining target copy of each letter, leaves `wrongLocationIndexes` equal to the ascending list of wrong-location positions. |
| Game.Board.SubmitGuess | src/script.js:83-101 | The outcome is that of the validation order. A rejected guess leaves the state unchanged. An accepted one leaves the reference verdict in both arrays. |
| Game.MaskAllMatches | src/script.js:114-117 | Applying `setCharAt` with a sentinel at each exact-match position in turn masks exactly the exact matches below the bound. |
| Game.GuessPoolAt | src/script.js:119-125 | The rewritten guess keeps its length, and the second pass has not touched unmatched positions it has not yet reached. |
| Game.MaskedTargetCount | src/script.js:114-117 | In the masked target, each real letter occurs as often as at unmatched target positions. |
| Game.PoolCount | src/script.js:119-126 | When the second pass reaches a position, each real letter remains in the rewritten target as often as its unmatched target copies, minus those already used by earlier unmatched guess copies. |
| Game.PoolDecides | src/script.js:121 | At an unmatched position, the test that the letter is still in the rewritten target holds exactly when the position is in the wrong location. |

## Left out

- The DOM, events, keyboard input, animations and timers are not modelled. Nor is the on-screen keyboard's highlighting (`key.classList.add` in `flipTile`).
- `stopInteraction`/`startInteraction`, `showAlert`, `shakeTiles` and `danceTiles` only affect the page, so they are not modelled. The alert texts are `RejectReason` values, and revealing the target on a loss is the `Lost` outcome.
- The data module is not part of this model. The target word, word length and dictionary are the `Game.Board` constructor's parameters, and the dictionary array is a set (`includes` on it is membership). The model assumes the data module's target has exactly `wordLength` letters; the constructor requires it.
- Game.CheckWinLose: "no tile without a letter" is abstracted as `rowsUsed == rows`, with the grid's rows counted as parameters.
- Game.Board.CheckLettersPositions: a guess whose length differs from the target's is excluded by the precondition. `submitGuess` refuses any guess not of `wordLength` letters. That keeps such a guess away from the classifier only under the data-module assumption above, that the target has `wordLength` letters.
- Game.Board.SubmitGuess: the guess is a parameter, not read from the active tiles. Its letters are required to be `a`–`z`. For keyboard input the `^[a-z]$` filter (`src/script.js:52`) guarantees this. For clicks it rests on the on-screen keys carrying only those letters, because `pressKey` only lowercases what a click passes it (`src/script.js:28-29`, `src/script.js:63`).
- Strings.SetCharAt: negative indices are not modelled (`index` is a `nat`). In JavaScript, `substring` clamps a negative argument to 0, so a negative index would give `chr + str`. No caller passes one: the indices come from `correctIndexes` or from an `indexOf` result already guarded by `includes`.
