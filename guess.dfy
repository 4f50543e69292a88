/** One row of the board (`Guess` in Shared/Models/Guess.swift): the row
    number, the five characters shown, a background colour per tile and a
    flipped flag per tile. The app paints tiles with its own colour palette;
    the scoring playground page uses a smaller enum, so the row is generic in
    its tile colour. */
module Guesses {

  /** The named colours of the app palette that the engine assigns to tiles and keys. */
  datatype Color = Correct | Misplaced | Wrong | Unused | SystemBackground

  /** `index` is a constant of the row; the other fields are updated by value. */
  datatype Guess<C> = Guess(index: int, word: string, bgColors: seq<C>, cardFlipped: seq<bool>)

  /** The blank word a new row shows. */
  const BlankWord: string := "     "

  /** `Guess(index:)` with every default in place; `background` is the default tile colour. */
  function NewGuess<C>(index: int, background: C): (g: Guess<C>)
    ensures g.index == index
    ensures |g.word| == 5 && forall i :: 0 <= i < 5 ==> g.word[i] == ' '
    ensures |g.bgColors| == 5 && forall i :: 0 <= i < 5 ==> g.bgColors[i] == background
    ensures |g.cardFlipped| == 5 && forall i :: 0 <= i < 5 ==> !g.cardFlipped[i]
  {
    Guess(index, BlankWord, seq(5, _ => background), seq(5, _ => false))
  }

  /** A row of the app's board as `populateDefaults` creates it. */
  function BlankRow(index: int): Guess<Color> {
    NewGuess(index, SystemBackground)
  }

  /** `guessLetters`: the word split into one-character strings. */
  function GuessLetters(word: string): (letters: seq<string>)
    ensures |letters| == |word|
    ensures forall i :: 0 <= i < |word| ==> letters[i] == [word[i]]
  {
    if word == [] then [] else [[word[0]]] + GuessLetters(word[1..])
  }

  function Joined(parts: seq<string>): string {
    if parts == [] then "" else parts[0] + Joined(parts[1..])
  }

  /** Joining the split letters gives the word back: the split loses nothing. */
  lemma {:induction false} GuessLettersJoined(word: string)
    ensures Joined(GuessLetters(word)) == word
  {
    if word != [] {
      GuessLettersJoined(word[1..]);
      assert GuessLetters(word)[1..] == GuessLetters(word[1..]);
    }
  }
}
