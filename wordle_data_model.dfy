/** The game engine (`WordleDataModel` in Shared/ViewModels/WordleDataModel.swift):
    six rows, the word being typed, the row being typed into, what is known
    about each letter, and the turn state machine driven by the keyboard. */
module Engine {
  import opened Letters
  import opened Guesses
  import opened EngineRules
  import opened Boards

  /** No position marked yet: the starting point of both passes. */
  const Unmarked: seq<WordCheck.Color> := [WordCheck.Wrong, WordCheck.Wrong, WordCheck.Wrong, WordCheck.Wrong, WordCheck.Wrong]

  /** The calls the engine makes on the player's statistics. */
  datatype StatUpdate = Won(index: int) | Lost

  class WordleDataModel {
    var guesses: seq<Guess<Color>>
    var incorrectAttempts: seq<int>
    var toast: Option<Toast>
    var hardMode: bool
    var keyColors: map<char, Color>
    var matchedLetters: seq<char>
    var misplacedLetters: seq<char>
    var correctlyPlacedLetters: seq<char>
    var targetWord: string
    var currentWord: string
    var tryIndex: int
    var inPlay: bool
    var gameOver: bool
    /** The calls made on the statistics store, oldest first. */
    ghost var statUpdates: seq<StatUpdate>

    /** The letter bookkeeping as one value. */
    ghost function Known(): Clues
      reads this`keyColors, this`matchedLetters, this`misplacedLetters, this`correctlyPlacedLetters
    {
      Clues(keyColors, matchedLetters, misplacedLetters, correctlyPlacedLetters)
    }

    /** The fields the invariant is about, as one value. */
    ghost function State(): Board
      reads this`guesses, this`incorrectAttempts, this`targetWord, this`tryIndex, this`inPlay, this`gameOver, this`currentWord,
        this`keyColors, this`matchedLetters, this`misplacedLetters, this`correctlyPlacedLetters
    {
      Board(guesses, incorrectAttempts, targetWord, tryIndex, inPlay, gameOver, currentWord, Known())
    }

    /** The engine's invariant between player actions (`Boards.Invariant`). */
    ghost predicate Valid()
      reads this`guesses, this`incorrectAttempts, this`targetWord, this`tryIndex, this`inPlay, this`gameOver, this`currentWord,
        this`keyColors, this`matchedLetters, this`misplacedLetters, this`correctlyPlacedLetters
    {
      Invariant(State())
    }

    /** `init`: a new game on `target`; the hard-mode setting is read from storage. */
    constructor (target: string, hardMode: bool)
      requires |target| == WordLength
      ensures Valid()
      ensures this.hardMode == hardMode && targetWord == target
      ensures tryIndex == 0 && currentWord == [] && inPlay && toast == None && statUpdates == []
      ensures State() == NewBoard(seq(6, _ => 0), target)
    {
      guesses := [];
      incorrectAttempts := seq(6, _ => 0);
      toast := None;
      this.hardMode := hardMode;
      keyColors := map[];
      matchedLetters := [];
      misplacedLetters := [];
      correctlyPlacedLetters := [];
      targetWord := target;
      currentWord := [];
      tryIndex := 0;
      inPlay := false;
      gameOver := false;
      statUpdates := [];
      new;
      NewGame(target);
    }

    /** `gameStarted`: a letter has been typed or a row submitted. */
    function GameStarted(): bool
      reads this
    {
      |currentWord| > 0 || tryIndex > 0
    }

    /** A game has started exactly when some row shows something other than blanks. */
    lemma GameStartedMeansRowTyped()
      requires Valid()
      ensures GameStarted() <==> exists i :: 0 <= i < 6 && guesses[i].word != BlankWord
    {
      if tryIndex > 0 {
        assert IsLetter(guesses[0].word[0]);
        assert guesses[0].word != BlankWord;
      } else if |currentWord| > 0 {
        assert guesses[0].word[0] == currentWord[0];
        assert guesses[0].word != BlankWord;
      } else {
        assert Pad(currentWord, WordLength) == BlankWord;
        forall i | 0 <= i < 6 ensures guesses[i].word == BlankWord {
        }
      }
    }

    /** `disabledKeys`: the letter keys are off when the game is over or the
        word is full; when they are on there is a row to type into and room
        for one more letter. */
    function DisabledKeys(): (r: bool)
      reads this
      ensures Valid() ==> (!r <==> inPlay && |currentWord| < WordLength)
      ensures Valid() && !r ==> tryIndex < 6
    {
      !inPlay || |currentWord| == WordLength
    }

    /** `newGame`: the state becomes `NewBoard` on `target` (six blank rows,
        every key unused, nothing known or typed, row 0 current, in play). The
        hard-mode setting, the toast, the attempt counters and the statistics
        are kept. */
    method NewGame(target: string)
      requires |target| == WordLength && |incorrectAttempts| == 6
      requires forall c :: c in keyColors ==> IsLetter(c)
      modifies this`guesses, this`keyColors, this`matchedLetters, this`misplacedLetters, this`targetWord,
        this`correctlyPlacedLetters, this`currentWord, this`inPlay, this`tryIndex, this`gameOver
      ensures State() == NewBoard(old(incorrectAttempts), target)
      ensures Valid()
    {
      PopulateDefaults();
      targetWord := target;
      correctlyPlacedLetters := seq(WordLength, _ => '-');
      currentWord := [];
      inPlay := true;
      tryIndex := 0;
      gameOver := false;
      AlphabetLetters();
      assert keyColors == UnusedKeys();
      assert correctlyPlacedLetters == "-----";
      assert Known() == NoClues();
      NewGameInvariant(incorrectAttempts, target);
    }

    /** `populateDefaults`: rows 0...5 rebuilt blank, the 26 keys reset to
        unused (any other key is left as it was), both letter lists emptied. */
    method PopulateDefaults()
      modifies this`guesses, this`keyColors, this`matchedLetters, this`misplacedLetters
      ensures guesses == BlankRows(6)
      ensures forall c :: c in keyColors <==> c in old(keyColors) || c in Alphabet
      ensures forall c :: c in keyColors ==> keyColors[c] == if c in Alphabet then Unused else old(keyColors)[c]
      ensures matchedLetters == [] && misplacedLetters == []
    {
      guesses := [];
      for index := 0 to 6
        invariant guesses == BlankRows(index)
        invariant keyColors == old(keyColors)
      {
        guesses := guesses + [BlankRow(index)];
      }
      var letters := Alphabet;
      for i := 0 to |letters|
        invariant guesses == BlankRows(6)
        invariant forall c :: c in keyColors <==> c in old(keyColors) || c in letters[..i]
        invariant forall c :: c in keyColors ==> keyColors[c] == if c in letters[..i] then Unused else old(keyColors)[c]
      {
        assert letters[..i + 1] == letters[..i] + [letters[i]];
        keyColors := keyColors[letters[i] := Unused];
      }
      assert letters[..|letters|] == letters;
      matchedLetters := [];
      misplacedLetters := [];
    }

    /** `updateRow`: the current row shows the word padded with spaces to five. */
    method UpdateRow()
      requires 0 <= tryIndex < |guesses|
      modifies this`guesses
      ensures guesses == old(guesses)[tryIndex := old(guesses[tryIndex]).(word := Pad(currentWord, WordLength))]
    {
      var guessWord := Pad(currentWord, WordLength);
      guesses := guesses[tryIndex := guesses[tryIndex].(word := guessWord)];
    }

    /** `addToCurrentWord`, reachable from a letter key while the keys are on:
        the letter goes at the end of the word and only the current row changes. */
    method AddToCurrentWord(letter: char)
      requires Valid() && !DisabledKeys() && IsLetter(letter)
      modifies this`currentWord, this`guesses
      ensures Valid()
      ensures currentWord == old(currentWord) + [letter]
      ensures guesses == old(guesses)[tryIndex := old(guesses[tryIndex]).(word := Pad(currentWord, WordLength))]
    {
      ghost var before := State();
      currentWord := currentWord + [letter];
      UpdateRow();
      TypeInvariant(before, currentWord);
    }

    /** `removeLastLetterFromCurrentWord`, reachable from the delete key while
        in play with a letter typed: the last letter goes and only the current
        row changes. */
    method RemoveLastLetterFromCurrentWord()
      requires Valid() && inPlay && |currentWord| > 0
      modifies this`currentWord, this`guesses
      ensures Valid()
      ensures currentWord == old(currentWord)[..|old(currentWord)| - 1]
      ensures guesses == old(guesses)[tryIndex := old(guesses[tryIndex]).(word := Pad(currentWord, WordLength))]
    {
      ghost var before := State();
      currentWord := currentWord[..|currentWord| - 1];
      UpdateRow();
      TypeInvariant(before, currentWord);
    }

    /** `showToast`: the message shown last. */
    method ShowToast(text: Toast)
      modifies this`toast
      ensures toast == Some(text)
    {
      toast := Some(text);
    }

    /** `setCurrentGuessColors`: the current row is painted with the reference
        score of its word, and the letter bookkeeping records the guess. The
        letter counts of the target and the row's tiles are carried from the
        first pass to the second. */
    method SetCurrentGuessColors()
      requires 0 <= tryIndex < |guesses|
      requires |targetWord| == WordLength && |correctlyPlacedLetters| == WordLength
      requires |guesses[tryIndex].word| == WordLength && |guesses[tryIndex].bgColors| == WordLength
      requires forall i :: 0 <= i < WordLength ==> guesses[tryIndex].bgColors[i] != Correct
      modifies this`guesses, this`keyColors, this`matchedLetters, this`misplacedLetters, this`correctlyPlacedLetters
      ensures guesses == old(guesses)[tryIndex := Scored(old(guesses[tryIndex]), targetWord)]
      ensures Known() == Record(old(Known()), old(guesses[tryIndex].word), targetWord)
    {
      var correctLetters := targetWord;
      var frequency := WordCheck.BuildFrequency(correctLetters);
      var row := guesses[tryIndex];
      WordCheck.StartTable(frequency, row.word, targetWord);
      var bgColors;
      bgColors, frequency := MarkExact(row.bgColors, frequency);
      WordCheck.BetweenPasses(Unmarked, row.word, targetWord);
      bgColors, frequency := MarkMisplaced(row.bgColors, bgColors, frequency);
      WordCheck.PassesDone(Unmarked, row.word, targetWord);
      WordCheck.OverlayFresh(WordCheck.Score(row.word, targetWord));
      assert Unmarked == seq(WordLength, _ => WordCheck.Wrong);
      assert bgColors == Scored(row, targetWord).bgColors;
      guesses := guesses[tryIndex := row.(bgColors := bgColors)];
      WrongKeyColors();
    }

    /** The first loop of `setCurrentGuessColors`: a letter in its target
        place paints its tile correct, is matched (leaving the misplaced
        list), pins its place and uses up one count of the letter. */
    method MarkExact(bg: seq<Color>, counts: map<char, int>) returns (bgColors: seq<Color>, frequency: map<char, int>)
      requires 0 <= tryIndex < |guesses| && |guesses[tryIndex].word| == WordLength
      requires |targetWord| == WordLength && |correctlyPlacedLetters| == WordLength && |bg| == WordLength
      requires counts == WordCheck.ExactTable(guesses[tryIndex].word, targetWord, 0)
      modifies this`keyColors, this`matchedLetters, this`misplacedLetters, this`correctlyPlacedLetters
      ensures frequency == WordCheck.ExactTable(guesses[tryIndex].word, targetWord, WordLength)
      ensures bgColors == Paint(bg, WordCheck.ExactPainted(Unmarked, guesses[tryIndex].word, targetWord, WordLength))
      ensures Known() == ExactPass(old(Known()), guesses[tryIndex].word, targetWord, WordLength)
    {
      var correctLetters, guessLetters := targetWord, guesses[tryIndex].word;
      bgColors, frequency := bg, counts;
      for index := 0 to WordLength
        invariant frequency == WordCheck.ExactTable(guessLetters, targetWord, index)
        invariant bgColors == Paint(bg, WordCheck.ExactPainted(Unmarked, guessLetters, targetWord, index))
        invariant |correctlyPlacedLetters| == WordLength
        invariant Known() == ExactPass(old(Known()), guessLetters, targetWord, index)
      {
        var correctLetter := correctLetters[index];
        var guessLetter := guessLetters[index];
        WordCheck.ExactStep(Unmarked, guessLetters, targetWord, index);
        if guessLetter == correctLetter {
          PaintMark(bg, WordCheck.ExactPainted(Unmarked, guessLetters, targetWord, index), index, WordCheck.Correct);
          bgColors := bgColors[index := Correct];
          AddMatched(guessLetter, index);
          frequency := frequency[guessLetter := frequency[guessLetter] - 1];
        }
      }
    }

    /** The matched and misplaced lists, the keyboard and the pins, as the
        first loop updates them for one correct tile at `index`. */
    method AddMatched(guessLetter: char, index: nat)
      requires index < |correctlyPlacedLetters|
      modifies this`keyColors, this`matchedLetters, this`misplacedLetters, this`correctlyPlacedLetters
      ensures Known() == ExactStep(old(Known()), guessLetter, index)
    {
      if guessLetter !in matchedLetters {
        matchedLetters := matchedLetters + [guessLetter];
        keyColors := keyColors[guessLetter := Correct];
      }
      if guessLetter in misplacedLetters {
        misplacedLetters := RemoveFirst(misplacedLetters, guessLetter);
      }
      correctlyPlacedLetters := correctlyPlacedLetters[index := guessLetter];
    }

    /** The second loop of `setCurrentGuessColors`: a letter of the target
        whose tile is not correct, while a count of it is left, paints its
        tile misplaced, joins the misplaced list unless it is known already,
        and uses up one count. */
    method MarkMisplaced(bg: seq<Color>, tiles: seq<Color>, counts: map<char, int>)
      returns (bgColors: seq<Color>, frequency: map<char, int>)
      requires 0 <= tryIndex < |guesses| && |guesses[tryIndex].word| == WordLength
      requires |targetWord| == WordLength && |bg| == WordLength
      requires forall i :: 0 <= i < WordLength ==> bg[i] != Correct
      requires counts == WordCheck.MisplacedTable(guesses[tryIndex].word, targetWord, 0)
      requires tiles == Paint(bg, WordCheck.MisplacedPainted(Unmarked, guesses[tryIndex].word, targetWord, 0))
      modifies this`keyColors, this`misplacedLetters
      ensures frequency == WordCheck.MisplacedTable(guesses[tryIndex].word, targetWord, WordLength)
      ensures bgColors == Paint(bg, WordCheck.MisplacedPainted(Unmarked, guesses[tryIndex].word, targetWord, WordLength))
      ensures Known() == MisplacedPass(old(Known()), guesses[tryIndex].word, WordCheck.Score(guesses[tryIndex].word, targetWord), WordLength)
    {
      var correctLetters, guessLetters := targetWord, guesses[tryIndex].word;
      ghost var marks := WordCheck.Score(guessLetters, targetWord);
      bgColors, frequency := tiles, counts;
      for index := 0 to WordLength
        invariant frequency == WordCheck.MisplacedTable(guessLetters, targetWord, index)
        invariant bgColors == Paint(bg, WordCheck.MisplacedPainted(Unmarked, guessLetters, targetWord, index))
        invariant Known() == MisplacedPass(old(Known()), guessLetters, marks, index)
      {
        var guessLetter := guessLetters[index];
        ghost var painted := WordCheck.MisplacedPainted(Unmarked, guessLetters, targetWord, index);
        WordCheck.MisplacedStep(Unmarked, guessLetters, targetWord, index);
        PaintCorrect(bg, painted, index);
        if guessLetter in correctLetters && bgColors[index] != Correct && frequency[guessLetter] > 0 {
          PaintMark(bg, painted, index, WordCheck.Misplaced);
          bgColors := bgColors[index := Misplaced];
          AddMisplaced(guessLetter);
          frequency := frequency[guessLetter := frequency[guessLetter] - 1];
        }
      }
    }

    /** The misplaced list and the keyboard, as the second loop updates them
        for one misplaced tile. */
    method AddMisplaced(guessLetter: char)
      modifies this`keyColors, this`misplacedLetters
      ensures Known() == MisplacedStep(old(Known()), guessLetter)
    {
      if guessLetter !in misplacedLetters && guessLetter !in matchedLetters {
        misplacedLetters := misplacedLetters + [guessLetter];
        keyColors := keyColors[guessLetter := Misplaced];
      }
    }

    /** `wrongKeyColors`: every letter of the current row whose key is neither
        correct nor misplaced gets a wrong key. */
    method WrongKeyColors()
      requires 0 <= tryIndex < |guesses| && |guesses[tryIndex].word| == WordLength
      modifies this`keyColors
      ensures keyColors == WrongPass(old(keyColors), guesses[tryIndex].word, WordLength)
    {
      for index := 0 to WordLength
        invariant keyColors == WrongPass(old(keyColors), guesses[tryIndex].word, index)
      {
        var guessLetter := guesses[tryIndex].word[index];
        if guessLetter !in keyColors || (keyColors[guessLetter] != Correct && keyColors[guessLetter] != Misplaced) {
          keyColors := keyColors[guessLetter := Wrong];
        }
      }
    }

    /** `enterWord`, reachable from the enter key while in play with five
        letters typed; `verifyWord` stands for the dictionary lookup. The
        target wins before any other check. A word the dictionary or, in hard
        mode, the pins or the misplaced letters reject changes nothing but the
        toast (the shake counter ends at 0). Any other word is accepted; after
        the sixth the game is lost and the toast names the target. */
    method EnterWord(verifyWord: string -> bool)
      requires Valid() && inPlay && |currentWord| == WordLength
      modifies this`guesses, this`incorrectAttempts, this`toast, this`keyColors, this`matchedLetters,
        this`misplacedLetters, this`correctlyPlacedLetters, this`tryIndex, this`currentWord, this`inPlay,
        this`gameOver, this`statUpdates
      ensures Valid()
      ensures old(currentWord) == targetWord ==>
        State() == AfterWin(old(State()))
        && toast == Some(Win(ToastWinWords[tryIndex]))
        && statUpdates == old(statUpdates) + [Won(tryIndex)]
      ensures old(currentWord) != targetWord && !verifyWord(old(currentWord)) ==>
        State() == old(State()).(incorrectAttempts := old(incorrectAttempts)[old(tryIndex) := 0])
        && toast == Some(NotInWordList) && statUpdates == old(statUpdates)
      ensures (old(currentWord) != targetWord && verifyWord(old(currentWord)) && hardMode
               && HardModeCorrectCheck(old(correctlyPlacedLetters), old(currentWord)).Some?) ==>
        State() == old(State()) && statUpdates == old(statUpdates)
        && toast == HardModeCorrectCheck(old(correctlyPlacedLetters), old(currentWord))
      ensures (old(currentWord) != targetWord && verifyWord(old(currentWord)) && hardMode
               && HardModeCorrectCheck(old(correctlyPlacedLetters), old(currentWord)).None?
               && HardModeMisplacedCheck(old(misplacedLetters), old(currentWord)).Some?) ==>
        State() == old(State()) && statUpdates == old(statUpdates)
        && toast == HardModeMisplacedCheck(old(misplacedLetters), old(currentWord))
      ensures (old(currentWord) != targetWord
               && !Rejected(old(currentWord), verifyWord, hardMode, old(correctlyPlacedLetters), old(misplacedLetters))) ==>
        State() == AfterAccept(old(State()))
        && (tryIndex == 6 ==> toast == Some(Lose(targetWord)) && statUpdates == old(statUpdates) + [Lost])
        && (tryIndex < 6 ==> toast == old(toast) && statUpdates == old(statUpdates))
    {
      ghost var before := State();
      Pad5(currentWord);
      if currentWord == targetWord {
        ScoreWin();
      } else {
        if verifyWord(currentWord) {
          if hardMode {
            var toastString := HardModeCorrectCheck(correctlyPlacedLetters, guesses[tryIndex].word);
            if toastString.Some? {
              ShowToast(toastString.value);
              assert State() == before;
              return;
            }
            toastString := HardModeMisplacedCheck(misplacedLetters, guesses[tryIndex].word);
            if toastString.Some? {
              ShowToast(toastString.value);
              assert State() == before;
              return;
            }
          }
          ScoreAccepted();
        } else {
          incorrectAttempts := incorrectAttempts[tryIndex := incorrectAttempts[tryIndex] + 1];
          ShowToast(NotInWordList);
          incorrectAttempts := incorrectAttempts[tryIndex := 0];
          assert State() == before.(incorrectAttempts := incorrectAttempts);
        }
      }
    }

    /** The winning branch of `enterWord`: the row is scored, the game ends,
        a win on this row goes to the statistics and the toast praises it. */
    method ScoreWin()
      requires Valid() && inPlay && currentWord == targetWord
      modifies this`guesses, this`keyColors, this`matchedLetters, this`misplacedLetters, this`correctlyPlacedLetters,
        this`gameOver, this`inPlay, this`toast, this`statUpdates
      ensures State() == AfterWin(old(State())) && Valid()
      ensures toast == Some(Win(ToastWinWords[tryIndex])) && statUpdates == old(statUpdates) + [Won(tryIndex)]
    {
      ghost var before := State();
      Pad5(currentWord);
      assert guesses[tryIndex].word == targetWord;
      gameOver := true;
      SetCurrentGuessColors();
      ghost var scored := State();
      assert scored == before.(guesses := ScoreRow(before), known := Record(before.known, targetWord, targetWord), gameOver := true);
      statUpdates := statUpdates + [Won(tryIndex)];
      ShowToast(Win(ToastWinWords[tryIndex]));
      inPlay := false;
      assert State() == scored.(inPlay := false);
      WinInvariant(before);
    }

    /** The accepting branch of `enterWord`: the row is scored, the next row
        becomes current with nothing typed, and after the sixth row the game
        is lost, which goes to the statistics and the toast. */
    method ScoreAccepted()
      requires Valid() && inPlay && |currentWord| == WordLength && currentWord != targetWord
      modifies this`guesses, this`keyColors, this`matchedLetters, this`misplacedLetters, this`correctlyPlacedLetters,
        this`tryIndex, this`currentWord, this`gameOver, this`inPlay, this`toast, this`statUpdates
      ensures State() == AfterAccept(old(State())) && Valid()
      ensures tryIndex == 6 ==> toast == Some(Lose(targetWord)) && statUpdates == old(statUpdates) + [Lost]
      ensures tryIndex < 6 ==> toast == old(toast) && statUpdates == old(statUpdates)
    {
      ghost var before := State();
      Pad5(currentWord);
      assert guesses[tryIndex].word == currentWord;
      SetCurrentGuessColors();
      ghost var scored := State();
      assert scored == before.(guesses := ScoreRow(before), known := Record(before.known, before.currentWord, targetWord));
      NextRow();
      assert State() == scored.(tryIndex := tryIndex, currentWord := [], inPlay := tryIndex < 6, gameOver := tryIndex == 6);
      AcceptInvariant(before);
    }

    /** The tail of the accepting branch of `enterWord`: the next row becomes
        current with nothing typed; after the sixth row the game is over and
        lost. */
    method NextRow()
      requires 0 <= tryIndex < 6 && inPlay && !gameOver
      modifies this`tryIndex, this`currentWord, this`gameOver, this`inPlay, this`toast, this`statUpdates
      ensures tryIndex == old(tryIndex) + 1 && currentWord == []
      ensures inPlay == (tryIndex < 6) && gameOver == (tryIndex == 6)
      ensures tryIndex == 6 ==> toast == Some(Lose(targetWord)) && statUpdates == old(statUpdates) + [Lost]
      ensures tryIndex < 6 ==> toast == old(toast) && statUpdates == old(statUpdates)
    {
      tryIndex := tryIndex + 1;
      currentWord := [];
      if tryIndex == 6 {
        statUpdates := statUpdates + [Lost];
        gameOver := true;
        inPlay := false;
        ShowToast(Lose(targetWord));
      }
    }
  }

  /** The word is turned away: by the dictionary, or in hard mode by a pin it
      breaks or a misplaced letter it lacks. */
  predicate Rejected(word: string, verifyWord: string -> bool, hardMode: bool, pinned: seq<char>, misplaced: seq<char>)
    requires |word| == |pinned| == WordLength
  {
    !verifyWord(word)
    || (hardMode && (HardModeCorrectCheck(pinned, word).Some? || HardModeMisplacedCheck(misplaced, word).Some?))
  }
}
