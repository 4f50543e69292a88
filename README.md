# Wordle clone engine in Dafny

This project models the core of a SwiftUI Wordle clone and proves properties of that model.

- **The game engine.** `WordleDataModel` keeps six rows of five tiles, the word being typed and the row it goes into. It also keeps what is known about every letter: key colours, letters found in place, letters found out of place, and letters pinned to a position. It runs the turn state machine: a new game, typing, deleting, entering a word, winning, the dictionary and hard-mode rejections, accepting a guess, and losing after six rows.
- **The scoring playground page.** It holds a standalone copy of the two-pass, frequency-aware scoring, run on the target BONDS with the guess BOOKS.
- **The row value `Guess`.** Both of the above use it.

Modules, one file each:

- `Letters` (`letters.dfy`): letters, the alphabet, counting, and two library operations the engine uses. One removes the first occurrence from an array, with the Swift standard library's `firstIndex(where:)` and `remove(at:)`. The other is Foundation's padding of a string with spaces.
- `Guesses` (`guess.dfy`): the app's colour palette and the `Guess` row with its defaults and `guessLetters`.
- `WordCheck` (`word_check.dfy`): the playground page. It holds:
  - the three-valued colour with its prefix and the page's `matchedLetters`;
  - `Score`, the reference definition of the scoring in closed form;
  - the page's in-place scoring method on an array of rows, proved to paint exactly `Score`;
  - the BONDS/BOOKS run.
- `EngineRules` (`engine_rules.dfy`): the engine's pure rules. These are the toast messages, the two hard-mode validators, how a scored row is painted, and the letter bookkeeping of one guess as three passes (`Record`). `RecordEffect` states what the passes amount to, letter by letter.
- `Boards` (`board.dfy`): the engine's invariant over a snapshot of its fields (`Board`), the state each kind of step leads to, and one lemma per step showing that the invariant is kept.
- `Engine` (`wordle_data_model.dfy`): the class `WordleDataModel`, with the engine's fields and methods. Each method states its new state in terms of the `Boards` and `EngineRules` functions.

Letters are `char`. The source uses one-character `String`s; the engine only ever builds them from the characters of a word. Words are `string`. Every word has five letters, as the engine's `0...4` loops require.

Modelling choices:

- `addToCurrentWord` has no guard of its own. The keyboard disables the letter keys while `disabledKeys` holds (Shared/Views/Keyboard.swift:24, :31 and :49), so the model makes "in play with fewer than five letters" a precondition rather than a no-op branch.
- The keyboard enables enter only while in play with five letters typed (Shared/Views/Keyboard.swift:44). It enables delete only while in play with at least one letter typed (Shared/Views/Keyboard.swift:60). Both guards are preconditions too, so there is no "incomplete guess" error path.
- The word length is the constant five of the engine's `0...4` loops and of `padding(toLength: 5, …)`. It is not configurable.
- `newGame` resets the rows, the 26 letter keys, both letter lists, the pins, the typed word, the row index and the in-play and game-over flags. Any other key keeps its colour. The attempt counters, the toast, the hard-mode setting and the statistics are kept as well.

## Model

| member | source | states |
|---|---|---|
| Letters.AlphabetLetters | Shared/ViewModels/WordleDataModel.swift:71-74 | the alphabet string `newGame` iterates holds exactly the upper-case letters A to Z |
| Letters.FirstIndex | Shared/ViewModels/WordleDataModel.swift:172 | `firstIndex(where:)` on a list holding the letter gives a position of that letter with no earlier occurrence |
| Letters.RemoveFirst | Shared/ViewModels/WordleDataModel.swift:171-175 | removing a letter that is absent changes nothing; removing a present one drops exactly its first occurrence and keeps the other letters in order |
| Letters.RemoveFirstNoDup | Shared/ViewModels/WordleDataModel.swift:171-175 | on a duplicate-free list, `firstIndex` plus `remove(at:)` removes the letter itself and nothing else, and keeps the list duplicate-free |
| Letters.Pad | Shared/ViewModels/WordleDataModel.swift:129 | `padding(toLength: 5, withPad: " ")` gives exactly five characters: the word's own, then spaces |
| Guesses.NewGuess | Shared/Models/Guess.swift:10-14 | a new row keeps its index and has five spaces, five tiles of the default colour and five unflipped cards |
| Guesses.GuessLetters | Shared/Models/Guess.swift:15-17 | `guessLetters` has one one-character string per character of the word, in order |
| Guesses.GuessLettersJoined | Shared/Models/Guess.swift:15-17 | joining `guessLetters` gives back the word, so the split loses nothing |
| WordCheck.Color.Prefix | WordleDev.playground/Pages/WordCheck.xcplaygroundpage/Contents.swift:6-11 | a colour's prefix is one capital letter: the first letter of its case name, upper-cased |
| WordCheck.MatchedLetters | WordleDev.playground/Pages/WordCheck.xcplaygroundpage/Contents.swift:21-23 | `matchedLetters` has one character per tile, in tile order, and each reads back as that tile's colour |
| WordCheck.MatchedLettersDetermineColors | WordleDev.playground/Pages/WordCheck.xcplaygroundpage/Contents.swift:21-23 | two rows with the same `matchedLetters` have the same tile colours |
| WordCheck.Score | WordleDev.playground/Pages/WordCheck.xcplaygroundpage/Contents.swift:42-58 | the reference score has one mark per position, and a position is correct exactly when guess and target agree there |
| WordCheck.MisplacedMeans | WordleDev.playground/Pages/WordCheck.xcplaygroundpage/Contents.swift:50-57 | a misplaced mark lies on a non-matching position whose letter is in the target and still has frequency left |
| WordCheck.LetterCredit | WordleDev.playground/Pages/WordCheck.xcplaygroundpage/Contents.swift:36-58 | each letter gets exactly min(count in guess, count in target) correct-or-misplaced marks, so never more than it occurs in the target |
| WordCheck.MarkedCount | WordleDev.playground/Pages/WordCheck.xcplaygroundpage/Contents.swift:42-57 | counting the credited positions of a letter: its exact matches plus as many non-matches as frequency is left for |
| WordCheck.ScoreSelf | WordleDev.playground/Pages/WordCheck.xcplaygroundpage/Contents.swift:42-49 | scoring a word against itself marks every position correct |
| WordCheck.BondsBooks | WordleDev.playground/Pages/WordCheck.xcplaygroundpage/Contents.swift:26-34 | BOOKS against BONDS scores correct, correct, wrong, wrong, correct, and the prefixes spell "CCWWC"; the second O is not credited |
| WordCheck.TablesNonNegative | WordleDev.playground/Pages/WordCheck.xcplaygroundpage/Contents.swift:38-57 | no frequency count goes below zero at any point of either pass |
| WordCheck.BuildFrequency | WordleDev.playground/Pages/WordCheck.xcplaygroundpage/Contents.swift:38-41 | the frequency table has exactly the target's letters as keys, each mapped to its number of occurrences |
| WordCheck.ExactStep | WordleDev.playground/Pages/WordCheck.xcplaygroundpage/Contents.swift:42-49 | one step of the first loop: an exact match paints its tile correct and takes one unit of its letter, which the table still has; otherwise nothing changes |
| WordCheck.MisplacedStep | WordleDev.playground/Pages/WordCheck.xcplaygroundpage/Contents.swift:50-57 | the second loop's three-part guard holds exactly when the reference score marks the position misplaced; the mark takes one unit of the letter |
| WordCheck.SetCurrentGuessColors | WordleDev.playground/Pages/WordCheck.xcplaygroundpage/Contents.swift:36-58 | the page's two loops paint row `tryIndex` with the reference score and change no other row and no other field of the row |
| WordCheck.WordCheckPage | WordleDev.playground/Pages/WordCheck.xcplaygroundpage/Contents.swift:26-64 | the page as a whole (six fresh rows, BOOKS typed into row 0, scored against BONDS) prints `matchedLetters` "CCWWC" |
| EngineRules.HardModeCorrectCheck | Shared/ViewModels/WordleDataModel.swift:137-145 | no message exactly when the word keeps every pinned letter; otherwise the message names the lowest breaking position, 1-based, and the letter pinned there |
| EngineRules.HardModeMisplacedCheck | Shared/ViewModels/WordleDataModel.swift:147-153 | no message exactly when the word contains every misplaced letter; otherwise it names a missing one, the first in the order the letters were found |
| EngineRules.ScoredRow | Shared/ViewModels/WordleDataModel.swift:155-193 | a scored row keeps its index, word and cards; a tile is correct exactly where the letters agree and misplaced exactly where the score says so; other tiles keep their colour; no letter gets more coloured tiles than it occurs in the target |
| EngineRules.ExactPassEffect | Shared/ViewModels/WordleDataModel.swift:162-179 | the first loop matches exactly the letters matched in place, drops them from the misplaced list, turns their keys correct, pins the matching positions, and keeps the bookkeeping consistent |
| EngineRules.MisplacedStepEffect | Shared/ViewModels/WordleDataModel.swift:187-190 | a misplaced mark adds its letter to the misplaced list with a misplaced key, unless the letter is known already |
| EngineRules.MisplacedPassEffect | Shared/ViewModels/WordleDataModel.swift:181-193 | the second loop adds exactly the marked letters that are not matched to the misplaced list and turns their keys misplaced; the matched letters and pins are untouched |
| EngineRules.WrongPassEffect | Shared/ViewModels/WordleDataModel.swift:198-205 | `wrongKeyColors` gives every letter of the word whose key is neither correct nor misplaced a wrong key, and leaves every other key alone |
| EngineRules.RecordEffect | Shared/ViewModels/WordleDataModel.swift:162-205 | one scored guess, letter by letter: the matched letters, the misplaced letters (never also matched), the key colours and the pins it leaves; the lists stay duplicate-free, disjoint and inside the target |
| EngineRules.KeyColorsMonotone | Shared/ViewModels/WordleDataModel.swift:162-205 | key colours never go down (unused, wrong, misplaced, correct), a correct key stays correct, and every letter of the guess ends correct, misplaced or wrong |
| EngineRules.RecordWin | Shared/ViewModels/WordleDataModel.swift:86-88 | entering the target pins every position to the target's letter and turns the key of every one of its letters correct |
| EngineRules.TargetPassesHardMode | Shared/ViewModels/WordleDataModel.swift:137-153 | the hard-mode checks never reject the target itself, so a hard-mode game stays winnable |
| Boards.BlankRows | Shared/ViewModels/WordleDataModel.swift:67-70 | `populateDefaults` builds rows 0 to 5, row i being `Guess(index: i)` |
| Boards.UnusedKeys | Shared/ViewModels/WordleDataModel.swift:71-74 | a key for each letter of the alphabet, every one unused |
| Boards.NoCluesConsistent | Shared/ViewModels/WordleDataModel.swift:58-77 | a new game's bookkeeping has a key for exactly the 26 letters and is consistent with any five-letter target |
| Boards.NewGameInvariant | Shared/ViewModels/WordleDataModel.swift:55-77 | the state `newGame` leaves satisfies the engine invariant |
| Boards.TypeInvariant | Shared/ViewModels/WordleDataModel.swift:80-83 | typing or deleting a letter while in play keeps the engine invariant |
| Boards.WinInvariant | Shared/ViewModels/WordleDataModel.swift:86-91 | entering the target keeps the engine invariant: the game is over on the winning row, which shows the all-correct score |
| Boards.AcceptInvariant | Shared/ViewModels/WordleDataModel.swift:104-112 | accepting a non-winning guess keeps the engine invariant: the row becomes a submitted row and the next row becomes current, or the game ends after the sixth |
| Engine.WordleDataModel.constructor | Shared/ViewModels/WordleDataModel.swift:49-52 | `init` reaches the state `newGame` gives on the target: six blank rows, every letter key unused, both letter lists empty, the pins "-----", nothing typed, row 0 current and in play, and the six attempt counters 0; the invariant holds, with no toast and no statistics calls |
| Engine.WordleDataModel.GameStartedMeansRowTyped | Shared/ViewModels/WordleDataModel.swift:42-44 | `gameStarted` holds exactly when some row shows something other than five spaces |
| Engine.WordleDataModel.DisabledKeys | Shared/ViewModels/WordleDataModel.swift:45-47 | the letter keys are on exactly when in play with fewer than five letters, and then there is a current row to type into |
| Engine.WordleDataModel.NewGame | Shared/ViewModels/WordleDataModel.swift:55-64 | the state becomes six blank rows, every key unused, nothing known, no pin, nothing typed, row 0 current and in play, and satisfies the invariant |
| Engine.WordleDataModel.PopulateDefaults | Shared/ViewModels/WordleDataModel.swift:66-77 | six blank rows, the 26 letter keys unused, any other key as it was, both letter lists empty |
| Engine.WordleDataModel.UpdateRow | Shared/ViewModels/WordleDataModel.swift:128-131 | only the current row's word changes, to the typed word padded with spaces |
| Engine.WordleDataModel.AddToCurrentWord | Shared/ViewModels/WordleDataModel.swift:80-83 | the letter is appended, the current row shows the padded word, no other row changes, and the invariant is kept |
| Engine.WordleDataModel.RemoveLastLetterFromCurrentWord | Shared/ViewModels/WordleDataModel.swift:123-126 | the last letter goes, the current row shows the padded word, no other row changes, and the invariant is kept |
| Engine.WordleDataModel.ShowToast | Shared/ViewModels/WordleDataModel.swift:215-218 | the toast shows the given message |
| Engine.WordleDataModel.SetCurrentGuessColors | Shared/ViewModels/WordleDataModel.swift:155-196 | the current row is painted with the reference score of its word, and the letter bookkeeping becomes `Record` of the guess |
| Engine.WordleDataModel.MarkExact | Shared/ViewModels/WordleDataModel.swift:162-179 | the first loop leaves the frequency table with the exact matches counted off, the exact matches painted correct, and the bookkeeping of the first pass |
| Engine.WordleDataModel.AddMatched | Shared/ViewModels/WordleDataModel.swift:167-176 | an exact match updates the matched list, the key, the misplaced list and the pin as one step of the first pass |
| Engine.WordleDataModel.MarkMisplaced | Shared/ViewModels/WordleDataModel.swift:181-193 | the second loop leaves the misplaced marks of the reference score painted, their units counted off, and the bookkeeping of the second pass |
| Engine.WordleDataModel.AddMisplaced | Shared/ViewModels/WordleDataModel.swift:187-190 | a misplaced mark updates the misplaced list and the key as one step of the second pass |
| Engine.WordleDataModel.WrongKeyColors | Shared/ViewModels/WordleDataModel.swift:198-205 | the keys become the wrong-key pass over the current row's word |
| Engine.WordleDataModel.EnterWord | Shared/ViewModels/WordleDataModel.swift:85-121 | the target wins before any other check. A dictionary rejection changes only the toast; the attempt counter ends at 0. A hard-mode rejection changes only the toast, with the pin message first. Any other word is accepted and loses after the sixth row. The invariant holds on every path |
| Engine.WordleDataModel.ScoreWin | Shared/ViewModels/WordleDataModel.swift:86-91 | the winning branch scores and records the row and ends the game on the same row; it sends a win on that row to the statistics, shows that row's praise and keeps the invariant |
| Engine.WordleDataModel.ScoreAccepted | Shared/ViewModels/WordleDataModel.swift:104-112 | the accepting branch scores and records the row and moves to the next row with nothing typed; after the sixth it ends the game as lost and names the target. It keeps the invariant |
| Engine.WordleDataModel.NextRow | Shared/ViewModels/WordleDataModel.swift:105-112 | the row index goes up by one, the typed word is cleared, and the game is over (lost, with the loss toast and a statistics call) exactly when the index reaches 6 |

## Left out

- `flipCards` (Shared/ViewModels/WordleDataModel.swift:207-213) is not modelled. It toggles each card's flipped flag on a timer, which is animation only, so `cardFlipped` keeps the values the rows were built with.
- `showToast`'s delayed clearing of the message and its `showStats` toggle are not modelled. These are timed animations. The toast is "the message shown last".
- The toast text is a `Toast` value rather than a formatted string. This covers the praise by row, "Not in word list", the pin message with its 1-based position, the missing-letter message, and the loss message naming the target. The ordinal formatting of the position is not modelled.
- `verifyWord` calls the system dictionary. It is a parameter of `EnterWord` (a predicate on words).
- `shareResult` is left out. It presents a share sheet and reads statistics and a per-row `results` string, none of which is part of this model.
- The `Statistic` store is a ghost log of the calls the engine makes (a win on a row, or a loss). Loading, counting and persisting statistics are not part of this model.
- The random choice of the target from the word list, and its "HELLO" fallback, are not modelled. The target is a parameter of `init` and `NewGame`, and must have five letters.
- `hardMode` is read from app storage in the source. Here it is a plain field, set by `init`.
- The `print` calls of `newGame` and of the playground page are left out. The page returns the `matchedLetters` it would print.
- `withAnimation` wrappers are left out. They do not change the values assigned. The shake counter's increment and reset are both modelled.
- Engine.WordleDataModel.SetCurrentGuessColors: the source writes tile colours into `guesses[tryIndex].bgColors` one at a time. The model paints a local copy and writes the row back once. The final state is the same, and no intermediate state is observable between player actions.
- Engine.WordleDataModel.MarkExact, Engine.WordleDataModel.MarkMisplaced: these are the two loops of `setCurrentGuessColors`, not functions of the source. Engine.WordleDataModel.AddMatched and Engine.WordleDataModel.AddMisplaced are the field updates inside those loops.
- Engine.WordleDataModel.ScoreWin, Engine.WordleDataModel.ScoreAccepted, Engine.WordleDataModel.NextRow: these are the winning branch, the accepting branch and the tail of the accepting branch of `enterWord`, not functions of the source.
- Engine.WordleDataModel.SetCurrentGuessColors requires that no tile of the current row is already correct. The source does not demand this, but it holds in every reachable state, because a row is scored once, while its tiles are blank.
- Engine.WordleDataModel.NewGame requires that every key is a letter and that there are six attempt counters. Both hold in every reachable state.
- The views (GameView, Keyboard, StatsView and others) are not part of this model. The only exception is the keyboard's guards, which become the preconditions of `AddToCurrentWord`, `RemoveLastLetterFromCurrentWord` and `EnterWord`.
- Integer width is not modelled: the counts involved are at most six.
- The palette is five distinct enum values. In the source each colour comes from a named asset and falls back to `.red` when the asset is missing (Shared/Extensions/Color+Extension.swift:11-22). So the `!= .correct` and `!= .misplaced` tests (Shared/ViewModels/WordleDataModel.swift:184 and :201) behave as modelled only when the asset catalogue defines those colours as distinct.
