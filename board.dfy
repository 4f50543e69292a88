/** The invariant the game engine keeps between player actions, stated on a
    snapshot of its fields, and one lemma per kind of step the engine takes:
    a new game, typing, a win and an accepted guess. The engine's methods
    (module Engine) only update fields; these lemmas carry the reasoning. */
module Boards {
  import opened Letters
  import opened Guesses
  import opened EngineRules
  import WordCheck

  /** The fields of `WordleDataModel` the invariant is about. */
  datatype Board = Board(
    guesses: seq<Guess<Color>>,
    incorrectAttempts: seq<int>,
    targetWord: string,
    tryIndex: int,
    inPlay: bool,
    gameOver: bool,
    currentWord: string,
    known: Clues)

  /** Rows 0 to n - 1 as `populateDefaults` builds them. */
  function BlankRows(n: nat): (rows: seq<Guess<Color>>)
    ensures |rows| == n && forall i :: 0 <= i < n ==> rows[i] == BlankRow(i)
  {
    if n == 0 then [] else BlankRows(n - 1) + [BlankRow(n - 1)]
  }

  /** The tile colours of a row nobody has scored. */
  const BlankTiles: seq<Color> := [SystemBackground, SystemBackground, SystemBackground, SystemBackground, SystemBackground]

  /** The tiles of a submitted row: its score painted over blank tiles. */
  function ScoredTiles(word: string, target: string): (r: seq<Color>)
    requires |word| == |target| == WordLength
    ensures |r| == WordLength
  {
    Paint(BlankTiles, WordCheck.Score(word, target))
  }

  /** Row `i` has its number and five of everything. */
  predicate RowShape(row: Guess<Color>, i: int) {
    row.index == i && |row.word| == WordLength && |row.bgColors| == WordLength && |row.cardFlipped| == WordLength
  }

  /** A row the player has submitted without winning: a word of letters,
      not the target, showing its score. */
  ghost predicate Submitted(row: Guess<Color>, target: string)
    requires |row.word| == |target| == WordLength
  {
    (forall j :: 0 <= j < WordLength ==> IsLetter(row.word[j]))
    && row.word != target
    && row.bgColors == ScoredTiles(row.word, target)
  }

  /** Rows before the current one are submitted; the current row shows the
      word being typed, padded with spaces, on blank tiles while the game is
      on, and the winning word with its score once won; later rows are blank.
      A game is over exactly when it is not in play, which happens on the row
      of the win or after six rows. Every letter key, and only those, has a
      colour, and the letter bookkeeping is consistent with the target. */
  ghost predicate Invariant(b: Board) {
    |b.guesses| == 6 && |b.incorrectAttempts| == 6
    && (forall i :: 0 <= i < 6 ==> RowShape(b.guesses[i], i))
    && |b.targetWord| == WordLength
    && 0 <= b.tryIndex <= 6 && b.inPlay == !b.gameOver && (b.inPlay ==> b.tryIndex < 6)
    && |b.currentWord| <= WordLength
    && (forall j :: 0 <= j < |b.currentWord| ==> IsLetter(b.currentWord[j]))
    && (b.tryIndex < 6 ==> b.guesses[b.tryIndex].word == Pad(b.currentWord, WordLength))
    && (b.inPlay ==> b.guesses[b.tryIndex].bgColors == BlankTiles)
    && (b.gameOver && b.tryIndex < 6 ==>
          b.currentWord == b.targetWord
          && b.guesses[b.tryIndex].bgColors == ScoredTiles(b.targetWord, b.targetWord))
    && (forall i :: b.tryIndex < i < 6 ==> b.guesses[i] == BlankRow(i))
    && (forall i :: 0 <= i < b.tryIndex ==> Submitted(b.guesses[i], b.targetWord))
    && (forall c :: c in b.known.keys <==> IsLetter(c))
    && Consistent(b.known, b.targetWord)
  }

  /** A blank row's word is the empty word padded. */
  lemma BlankRowShape(i: int)
    ensures RowShape(BlankRow(i), i)
    ensures BlankRow(i).word == Pad([], WordLength) && BlankRow(i).bgColors == BlankTiles
  {
  }

  /** Every letter key unused. */
  function UnusedKeys(): (keys: map<char, Color>)
    ensures forall c :: c in keys <==> c in Alphabet
    ensures forall c :: c in keys ==> keys[c] == Unused
  {
    map c | c in Alphabet :: Unused
  }

  /** The bookkeeping of a new game: every letter key unused, nothing known, no pin. */
  function NoClues(): Clues {
    Clues(UnusedKeys(), [], [], "-----")
  }

  /** A new game's bookkeeping has a key for exactly the letters and is
      consistent with any target. */
  lemma NoCluesConsistent(target: string)
    requires |target| == WordLength
    ensures Consistent(NoClues(), target)
    ensures forall c :: c in NoClues().keys <==> IsLetter(c)
  {
    AlphabetLetters();
  }

  /** The state `newGame` leaves: six blank rows, every key unused, nothing
      known, no position pinned, nothing typed, row 0 current, in play. */
  function NewBoard(attempts: seq<int>, target: string): Board {
    Board(BlankRows(6), attempts, target, 0, true, false, [], NoClues())
  }

  /** `newGame` lands in the invariant, whatever the attempt counters hold. */
  lemma NewGameInvariant(attempts: seq<int>, target: string)
    requires |attempts| == 6 && |target| == WordLength
    ensures Invariant(NewBoard(attempts, target))
  {
    NoCluesConsistent(target);
    var rows := BlankRows(6);
    forall i | 0 <= i < 6 ensures RowShape(rows[i], i) {
      BlankRowShape(i);
    }
    BlankRowShape(0);
  }

  /** The state after the typed word becomes `word`: the current row shows it. */
  function AfterTyping(b: Board, word: string): Board
    requires 0 <= b.tryIndex < |b.guesses|
  {
    b.(currentWord := word, guesses := b.guesses[b.tryIndex := b.guesses[b.tryIndex].(word := Pad(word, WordLength))])
  }

  /** Typing or deleting a letter while in play keeps the invariant. */
  lemma TypeInvariant(b: Board, word: string)
    requires Invariant(b) && b.inPlay
    requires |word| <= WordLength && forall j :: 0 <= j < |word| ==> IsLetter(word[j])
    ensures Invariant(AfterTyping(b, word))
  {
  }

  /** The current row scored against the target, as the engine paints it. */
  function ScoreRow(b: Board): seq<Guess<Color>>
    requires |b.guesses| == 6 && 0 <= b.tryIndex < 6 && |b.targetWord| == WordLength
    requires RowShape(b.guesses[b.tryIndex], b.tryIndex)
  {
    b.guesses[b.tryIndex := Scored(b.guesses[b.tryIndex], b.targetWord)]
  }

  /** The state after the target is entered: the row is scored and
      recorded, and the game ends on this row. */
  function AfterWin(b: Board): Board
    requires |b.guesses| == 6 && 0 <= b.tryIndex < 6 && |b.targetWord| == WordLength
    requires RowShape(b.guesses[b.tryIndex], b.tryIndex) && |b.known.pinned| == WordLength
  {
    b.(guesses := ScoreRow(b), known := Record(b.known, b.targetWord, b.targetWord), gameOver := true, inPlay := false)
  }

  /** The state after a guess other than the target is accepted: the row is
      scored and recorded, the typed word is cleared and the next row becomes
      current; the game is lost after the sixth row. */
  function AfterAccept(b: Board): Board
    requires |b.guesses| == 6 && 0 <= b.tryIndex < 6 && |b.targetWord| == WordLength
    requires RowShape(b.guesses[b.tryIndex], b.tryIndex) && |b.known.pinned| == WordLength
  {
    var next := b.tryIndex + 1;
    b.(guesses := ScoreRow(b), known := Record(b.known, b.guesses[b.tryIndex].word, b.targetWord),
       tryIndex := next, currentWord := [], inPlay := next < 6, gameOver := next == 6)
  }

  /** Entering the target keeps the invariant. */
  lemma WinInvariant(b: Board)
    requires Invariant(b) && b.inPlay && b.currentWord == b.targetWord
    ensures Invariant(AfterWin(b))
  {
    var t := b.targetWord;
    var row := b.guesses[b.tryIndex];
    Pad5(t);
    RecordEffect(b.known, t, t);
    CountPositiveAll(t);
    assert Scored(row, t).bgColors == ScoredTiles(t, t);
  }

  /** An accepted guess other than the target keeps the invariant: the row
      is submitted, the next row becomes current, and the sixth ends the game. */
  lemma AcceptInvariant(b: Board)
    requires Invariant(b) && b.inPlay && |b.currentWord| == WordLength && b.currentWord != b.targetWord
    ensures Invariant(AfterAccept(b))
  {
    var t, w := b.targetWord, b.currentWord;
    var row := b.guesses[b.tryIndex];
    Pad5(w);
    RecordEffect(b.known, w, t);
    CountPositiveAll(w);
    assert Submitted(Scored(row, t), t);
    if b.tryIndex + 1 < 6 {
      BlankRowShape(b.tryIndex + 1);
    }
  }

  /** A five-letter word is its own padding. */
  lemma Pad5(word: string)
    requires |word| == WordLength
    ensures Pad(word, WordLength) == word
  {
  }
}
