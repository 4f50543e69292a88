/** The scoring playground page: a three-valued tile colour with its one-letter
    prefix, the page's `Guess` row, the two-pass frequency-aware scoring run
    in place on the page's rows, and the page's own run on BONDS / BOOKS.

    `Score` is the reference definition of that scoring, in closed form: a
    position is `Correct` when the letters agree; otherwise it is `Misplaced`
    when fewer earlier non-matching occurrences of its letter were seen than
    the target still has of that letter once the exact matches are taken out. */
module WordCheck {
  import opened Letters
  import Guesses

  datatype Color = Correct | Misplaced | Wrong {
    /** The case name, which is the enum's raw value. */
    function RawValue(): string {
      match this
      case Correct => "correct"
      case Misplaced => "misplaced"
      case Wrong => "wrong"
    }

    /** `prefix`: the first character of the raw value, capitalised. */
    function Prefix(): (p: string)
      ensures |p| == 1 && p[0] == Upper(RawValue()[0])
      ensures 'A' <= p[0] <= 'Z'
    {
      Capitalized(RawValue()[..1])
    }
  }

  function Upper(c: char): char {
    if 'a' <= c <= 'z' then (c as int - 32) as char else c
  }

  function Lower(c: char): char {
    if 'A' <= c <= 'Z' then (c as int + 32) as char else c
  }

  /** `String.capitalized` on a single word: upper-case head, lower-case tail. */
  function Capitalized(s: string): string {
    if s == [] then [] else [Upper(s[0])] + seq(|s| - 1, i requires 0 <= i < |s| - 1 => Lower(s[i + 1]))
  }

  /** Reads one character of `matchedLetters` back as a colour. */
  function FromPrefix(ch: char): Option<Color> {
    if ch == 'C' then Some(Correct)
    else if ch == 'M' then Some(Misplaced)
    else if ch == 'W' then Some(Wrong)
    else None
  }

  /** The page's `Guess`: tiles start out `wrong`. */
  function BlankRow(index: int): Guesses.Guess<Color> {
    Guesses.NewGuess(index, Wrong)
  }

  /** The prefixes of `colors`, joined with no separator. */
  function Prefixes(colors: seq<Color>): (s: string)
    ensures |s| == |colors|
    ensures forall i :: 0 <= i < |colors| ==> [s[i]] == colors[i].Prefix()
  {
    if colors == [] then "" else colors[0].Prefix() + Prefixes(colors[1..])
  }

  /** `matchedLetters`: one prefix character per tile, in tile order. */
  function MatchedLetters(g: Guesses.Guess<Color>): (s: string)
    ensures |s| == |g.bgColors|
    ensures forall i :: 0 <= i < |s| ==> FromPrefix(s[i]) == Some(g.bgColors[i])
  {
    Prefixes(g.bgColors)
  }

  /** `matchedLetters` determines the tile colours: reading it back gives them. */
  lemma MatchedLettersDetermineColors(g: Guesses.Guess<Color>, h: Guesses.Guess<Color>)
    requires MatchedLetters(g) == MatchedLetters(h)
    ensures g.bgColors == h.bgColors
  {
    var s := MatchedLetters(g);
    forall i | 0 <= i < |g.bgColors| ensures g.bgColors[i] == h.bgColors[i] {
      assert FromPrefix(s[i]) == Some(g.bgColors[i]) == Some(h.bgColors[i]);
    }
  }

  // ---------------------------------------------------------------- counting

  /** Positions before `k` where guess and target both hold `c`. */
  function ExactBefore(g: string, t: string, k: nat, c: char): nat
    requires k <= |g| && k <= |t|
  {
    if k == 0 then 0
    else ExactBefore(g, t, k - 1, c) + (if g[k - 1] == c && t[k - 1] == c then 1 else 0)
  }

  /** Positions before `k` where the guess holds `c` and the target does not. */
  function NonExactBefore(g: string, t: string, k: nat, c: char): nat
    requires k <= |g| && k <= |t|
  {
    if k == 0 then 0
    else NonExactBefore(g, t, k - 1, c) + (if g[k - 1] == c && t[k - 1] != c then 1 else 0)
  }

  /** What the frequency table holds for `c` once every exact match is counted off. */
  function Remaining(g: string, t: string, c: char): int
    requires |g| == |t|
  {
    Count(t, c) - ExactBefore(g, t, |g|, c)
  }

  lemma {:induction false} ExactAtMostCount(g: string, t: string, k: nat, c: char)
    requires k <= |g| && k <= |t|
    ensures ExactBefore(g, t, k, c) <= CountBefore(t, k, c) <= Count(t, c)
  {
    if k > 0 {
      ExactAtMostCount(g, t, k - 1, c);
    }
    CountBeforeAtMostCount(t, k, c);
  }

  lemma {:induction false} ExactAtMostGuessCount(g: string, t: string, k: nat, c: char)
    requires k <= |g| && k <= |t|
    ensures CountBefore(g, k, c) == ExactBefore(g, t, k, c) + NonExactBefore(g, t, k, c)
  {
    if k > 0 {
      ExactAtMostGuessCount(g, t, k - 1, c);
    }
  }

  /** The frequency table never goes negative in the first pass. */
  lemma RemainingNonNegative(g: string, t: string, c: char)
    requires |g| == |t|
    ensures Remaining(g, t, c) >= 0
    ensures c !in t ==> Remaining(g, t, c) == 0
  {
    ExactAtMostCount(g, t, |g|, c);
    CountPositive(t, c);
  }

  // ---------------------------------------------------------------- scoring

  /** The colour the page's two passes leave at position `i`. */
  function ScoreAt(g: string, t: string, i: nat): Color
    requires |g| == |t| && i < |g|
  {
    if g[i] == t[i] then Correct
    else if NonExactBefore(g, t, i, g[i]) < Remaining(g, t, g[i]) then Misplaced
    else Wrong
  }

  /** The colours scoring `g` against `t` paints: a position is correct exactly
      when the letters agree there. */
  function Score(g: string, t: string): (marks: seq<Color>)
    requires |g| == |t|
    ensures |marks| == |g|
    ensures forall i :: 0 <= i < |g| ==> (marks[i] == Correct <==> g[i] == t[i])
  {
    seq(|g|, i requires 0 <= i < |g| => ScoreAt(g, t, i))
  }

  /** A misplaced mark goes only to a non-matching position whose letter is in
      the target and whose letter still has frequency left. */
  lemma MisplacedMeans(g: string, t: string, i: nat)
    requires |g| == |t| && i < |g|
    requires Score(g, t)[i] == Misplaced
    ensures g[i] != t[i] && g[i] in t
    ensures NonExactBefore(g, t, i, g[i]) < Remaining(g, t, g[i])
  {
    RemainingNonNegative(g, t, g[i]);
  }

  /** Positions before `k` holding `c` whose mark is not `Wrong`. */
  function MarkedBefore(marks: seq<Color>, g: string, k: nat, c: char): nat
    requires k <= |g| && k <= |marks|
  {
    if k == 0 then 0
    else MarkedBefore(marks, g, k - 1, c) + (if g[k - 1] == c && marks[k - 1] != Wrong then 1 else 0)
  }

  /** Counting the credited positions for `c` given only which of them are
      credited: a match, or a non-match while fewer than `r` non-matches came
      before it. */
  lemma {:induction false} MarkedCount(marks: seq<Color>, g: string, t: string, k: nat, c: char, r: int)
    requires |g| == |t| == |marks| && k <= |g| && r >= 0
    requires forall j {:trigger marks[j]} :: 0 <= j < k && g[j] == c ==>
      (marks[j] != Wrong <==> t[j] == c || NonExactBefore(g, t, j, c) < r)
    ensures MarkedBefore(marks, g, k, c) == ExactBefore(g, t, k, c) + Min(NonExactBefore(g, t, k, c), r)
  {
    if k > 0 {
      MarkedCount(marks, g, t, k - 1, c, r);
    }
  }

  lemma MarkedPrefix(g: string, t: string, k: nat, c: char)
    requires |g| == |t| && k <= |g|
    ensures MarkedBefore(Score(g, t), g, k, c)
         == ExactBefore(g, t, k, c) + Min(NonExactBefore(g, t, k, c), Remaining(g, t, c))
  {
    RemainingNonNegative(g, t, c);
    var marks := Score(g, t);
    forall j | 0 <= j < k && g[j] == c
      ensures marks[j] != Wrong <==> t[j] == c || NonExactBefore(g, t, j, c) < Remaining(g, t, c)
    {
      assert marks[j] == ScoreAt(g, t, j);
    }
    MarkedCount(marks, g, t, k, c, Remaining(g, t, c));
  }

  /** Every letter is credited (correct or misplaced) exactly as often as it
      occurs in both words: never more often than it occurs in the target. */
  lemma LetterCredit(g: string, t: string, c: char)
    requires |g| == |t|
    ensures MarkedBefore(Score(g, t), g, |g|, c) == Min(Count(g, c), Count(t, c))
    ensures MarkedBefore(Score(g, t), g, |g|, c) <= Count(t, c)
  {
    MarkedPrefix(g, t, |g|, c);
    ExactAtMostGuessCount(g, t, |g|, c);
    ExactAtMostCount(g, t, |g|, c);
  }

  /** Scoring a word against itself marks every position correct. */
  lemma ScoreSelf(t: string)
    ensures Score(t, t) == seq(|t|, _ => Correct)
  {
  }

  /** Only `Correct` and `Misplaced` are painted; a `Wrong` mark leaves the tile as it was. */
  function Overlay(bg: seq<Color>, marks: seq<Color>): (r: seq<Color>)
    requires |bg| == |marks|
    ensures |r| == |bg|
  {
    seq(|bg|, i requires 0 <= i < |bg| => if marks[i] == Wrong then bg[i] else marks[i])
  }

  /** On a fresh row, whose tiles are all `wrong`, painting leaves exactly the score. */
  lemma OverlayFresh(marks: seq<Color>)
    ensures Overlay(seq(|marks|, _ => Wrong), marks) == marks
  {
  }

  /** The page's run: target BONDS, guess BOOKS. Only one O is in the target, so
      the second O of the guess is not credited. */
  lemma BondsBooks()
    ensures Score("BOOKS", "BONDS") == [Correct, Correct, Wrong, Wrong, Correct]
    ensures Prefixes(Score("BOOKS", "BONDS")) == "CCWWC"
  {
    var g, t := "BOOKS", "BONDS";
    assert ExactBefore(g, t, 2, 'O') == 1;
    assert ExactBefore(g, t, 5, 'O') == 1;
    assert CountBefore(t, 2, 'O') == 1;
    assert Count(t, 'O') == 1;
    assert Remaining(g, t, 'O') == 0;
    assert Count(t, 'K') == 0;
    assert Remaining(g, t, 'K') == 0;
    assert ScoreAt(g, t, 2) == Wrong;
    assert ScoreAt(g, t, 3) == Wrong;
    var s := Score(g, t);
    assert s == [Correct, Correct, Wrong, Wrong, Correct];
    assert Prefixes(s) == "CCWWC";
  }

  // ---------------------------------------------------------------- the two passes

  /** The frequency table after the first pass has visited positions before `k`. */
  function ExactTable(g: string, t: string, k: nat): map<char, int>
    requires |g| == |t| && k <= |g|
  {
    map c | c in t :: Count(t, c) - ExactBefore(g, t, k, c)
  }

  /** The frequency table after the second pass has visited positions before `k`. */
  function MisplacedTable(g: string, t: string, k: nat): map<char, int>
    requires |g| == |t| && k <= |g|
  {
    map c | c in t :: Remaining(g, t, c) - Min(NonExactBefore(g, t, k, c), Remaining(g, t, c))
  }

  /** The tiles after the first pass has visited positions before `k`. */
  function ExactPainted(bg: seq<Color>, g: string, t: string, k: nat): (r: seq<Color>)
    requires |bg| == |g| == |t| && k <= |g|
    ensures |r| == |bg|
  {
    seq(|bg|, i requires 0 <= i < |bg| => if i < k && g[i] == t[i] then Correct else bg[i])
  }

  /** The tiles after the second pass has visited positions before `k`. */
  function MisplacedPainted(bg: seq<Color>, g: string, t: string, k: nat): (r: seq<Color>)
    requires |bg| == |g| == |t| && k <= |g|
    ensures |r| == |bg|
  {
    seq(|bg|, i requires 0 <= i < |bg| =>
      if i < k then Overlay(bg, Score(g, t))[i] else ExactPainted(bg, g, t, |g|)[i])
  }

  /** Neither table ever holds a negative count. */
  lemma TablesNonNegative(g: string, t: string, k: nat)
    requires |g| == |t| && k <= |g|
    ensures forall c :: c in ExactTable(g, t, k) ==> ExactTable(g, t, k)[c] >= 0
    ensures forall c :: c in MisplacedTable(g, t, k) ==> MisplacedTable(g, t, k)[c] >= 0
  {
    forall c | c in t ensures Count(t, c) - ExactBefore(g, t, k, c) >= 0 && Remaining(g, t, c) >= 0 {
      ExactAtMostCount(g, t, k, c);
      RemainingNonNegative(g, t, c);
    }
  }

  /** `frequency[letter, default: 0] += 1` over the target: every letter of the
      word is a key, and its value is the number of times it occurs. */
  method BuildFrequency(correctLetters: string) returns (frequency: map<char, int>)
    ensures forall c :: c in frequency <==> c in correctLetters
    ensures forall c :: c in frequency ==> frequency[c] == Count(correctLetters, c)
  {
    frequency := map[];
    for i := 0 to |correctLetters|
      invariant forall c :: c in frequency <==> c in correctLetters[..i]
      invariant forall c :: c in frequency ==> frequency[c] == CountBefore(correctLetters, i, c)
      invariant forall c :: c !in frequency ==> CountBefore(correctLetters, i, c) == 0
    {
      var letter := correctLetters[i];
      assert correctLetters[..i + 1] == correctLetters[..i] + [letter];
      frequency := frequency[letter := (if letter in frequency then frequency[letter] else 0) + 1];
    }
    assert correctLetters[..|correctLetters|] == correctLetters;
  }

  /** The counted target is where the first pass starts. */
  lemma StartTable(frequency: map<char, int>, g: string, t: string)
    requires |g| == |t|
    requires forall c :: c in frequency <==> c in t
    requires forall c :: c in frequency ==> frequency[c] == Count(t, c)
    ensures frequency == ExactTable(g, t, 0)
  {
  }

  /** First pass, position `k`: an exact match is painted correct and costs its
      letter one unit, which the table still has. */
  lemma ExactStep(bg: seq<Color>, g: string, t: string, k: nat)
    requires |bg| == |g| == |t| && k < |g|
    ensures g[k] == t[k] ==>
      g[k] in ExactTable(g, t, k) && ExactTable(g, t, k)[g[k]] > 0
      && ExactTable(g, t, k + 1) == ExactTable(g, t, k)[g[k] := ExactTable(g, t, k)[g[k]] - 1]
      && ExactPainted(bg, g, t, k + 1) == ExactPainted(bg, g, t, k)[k := Correct]
    ensures g[k] != t[k] ==>
      ExactTable(g, t, k + 1) == ExactTable(g, t, k)
      && ExactPainted(bg, g, t, k + 1) == ExactPainted(bg, g, t, k)
  {
    if g[k] == t[k] {
      assert t[k] in t;
      ExactAtMostCount(g, t, k + 1, g[k]);
    }
  }

  /** After the first pass the table holds `Remaining` for every target letter. */
  lemma BetweenPasses(bg: seq<Color>, g: string, t: string)
    requires |bg| == |g| == |t|
    ensures ExactTable(g, t, |g|) == MisplacedTable(g, t, 0)
    ensures ExactPainted(bg, g, t, |g|) == MisplacedPainted(bg, g, t, 0)
  {
    forall c | c in t ensures Remaining(g, t, c) >= 0 {
      RemainingNonNegative(g, t, c);
    }
  }

  /** Second pass, position `k`: the guard the code tests is exactly the
      reference's misplaced condition, and a misplaced mark costs one unit. */
  lemma MisplacedStep(bg: seq<Color>, g: string, t: string, k: nat)
    requires |bg| == |g| == |t| && k < |g|
    requires forall i :: 0 <= i < |bg| ==> bg[i] != Correct
    ensures var table, tiles := MisplacedTable(g, t, k), MisplacedPainted(bg, g, t, k);
      var fires := g[k] in t && tiles[k] != Correct && table[g[k]] > 0;
      (fires <==> Score(g, t)[k] == Misplaced)
      && (fires ==> MisplacedTable(g, t, k + 1) == table[g[k] := table[g[k]] - 1]
                    && MisplacedPainted(bg, g, t, k + 1) == tiles[k := Misplaced])
      && (!fires ==> MisplacedTable(g, t, k + 1) == table
                     && MisplacedPainted(bg, g, t, k + 1) == tiles)
  {
    PaintedAt(bg, g, t, k, k);
    MisplacedGuard(g, t, k);
    MisplacedTableStep(g, t, k);
    MisplacedPaintedStep(bg, g, t, k);
  }

  lemma MisplacedGuard(g: string, t: string, k: nat)
    requires |g| == |t| && k < |g|
    ensures var table := MisplacedTable(g, t, k);
      (g[k] in t && g[k] != t[k] && table[g[k]] > 0) <==> Score(g, t)[k] == Misplaced
  {
    var c := g[k];
    RemainingNonNegative(g, t, c);
    if c in t {
      assert MisplacedTable(g, t, k)[c]
          == Remaining(g, t, c) - Min(NonExactBefore(g, t, k, c), Remaining(g, t, c));
    }
  }

  lemma MisplacedTableStep(g: string, t: string, k: nat)
    requires |g| == |t| && k < |g|
    ensures var table, c := MisplacedTable(g, t, k), g[k];
      (Score(g, t)[k] == Misplaced ==> c in table && MisplacedTable(g, t, k + 1) == table[c := table[c] - 1])
      && (Score(g, t)[k] != Misplaced ==> MisplacedTable(g, t, k + 1) == table)
  {
    var c := g[k];
    if Score(g, t)[k] == Misplaced {
      MisplacedMeans(g, t, k);
    }
    var table, next := MisplacedTable(g, t, k), MisplacedTable(g, t, k + 1);
    RemainingNonNegative(g, t, c);
    forall d | d in t && d != c ensures next[d] == table[d] {
      assert NonExactBefore(g, t, k + 1, d) == NonExactBefore(g, t, k, d);
    }
    assert next.Keys == table.Keys;
    if c in t {
      assert table[c] == Remaining(g, t, c) - Min(NonExactBefore(g, t, k, c), Remaining(g, t, c));
      assert next[c] == Remaining(g, t, c) - Min(NonExactBefore(g, t, k + 1, c), Remaining(g, t, c));
      MapUpdated(table, next, c, if Score(g, t)[k] == Misplaced then table[c] - 1 else table[c]);
    } else {
      MapUnchanged(table, next, c);
    }
  }

  lemma MapUpdated(a: map<char, int>, b: map<char, int>, c: char, v: int)
    requires a.Keys == b.Keys && c in a && b[c] == v
    requires forall d :: d in a && d != c ==> a[d] == b[d]
    ensures b == a[c := v]
  {
  }

  lemma MapUnchanged(a: map<char, int>, b: map<char, int>, c: char)
    requires a.Keys == b.Keys && c !in a
    requires forall d :: d in a && d != c ==> a[d] == b[d]
    ensures b == a
  {
  }

  lemma MisplacedPaintedStep(bg: seq<Color>, g: string, t: string, k: nat)
    requires |bg| == |g| == |t| && k < |g|
    requires forall i :: 0 <= i < |bg| ==> bg[i] != Correct
    ensures Score(g, t)[k] == Misplaced ==>
      MisplacedPainted(bg, g, t, k + 1) == MisplacedPainted(bg, g, t, k)[k := Misplaced]
    ensures Score(g, t)[k] != Misplaced ==>
      MisplacedPainted(bg, g, t, k + 1) == MisplacedPainted(bg, g, t, k)
  {
    var before, after := MisplacedPainted(bg, g, t, k), MisplacedPainted(bg, g, t, k + 1);
    forall i | 0 <= i < |bg|
      ensures after[i] == if i == k && Score(g, t)[k] == Misplaced then Misplaced else before[i]
    {
      PaintedAt(bg, g, t, k, i);
      PaintedAt(bg, g, t, k + 1, i);
    }
  }

  lemma PaintedAt(bg: seq<Color>, g: string, t: string, k: nat, i: nat)
    requires |bg| == |g| == |t| && k <= |g| && i < |g|
    ensures ExactPainted(bg, g, t, |g|)[i] == if g[i] == t[i] then Correct else bg[i]
    ensures MisplacedPainted(bg, g, t, k)[i]
         == if i < k then Overlay(bg, Score(g, t))[i] else ExactPainted(bg, g, t, |g|)[i]
    ensures Overlay(bg, Score(g, t))[i] == if Score(g, t)[i] == Wrong then bg[i] else Score(g, t)[i]
  {
  }

  /** When the second pass is done the tiles carry the reference score. */
  lemma PassesDone(bg: seq<Color>, g: string, t: string)
    requires |bg| == |g| == |t|
    ensures MisplacedPainted(bg, g, t, |g|) == Overlay(bg, Score(g, t))
  {
  }

  /** `setCurrentGuessColors` on the page: two passes over positions 0...4 of
      row `tryIndex`, with a frequency table of the target's letters. The row's
      tiles end up painted with the reference score; nothing else changes. */
  method SetCurrentGuessColors(guesses: array<Guesses.Guess<Color>>, tryIndex: nat, targetWord: string)
    requires tryIndex < guesses.Length
    requires |targetWord| == WordLength
    requires |guesses[tryIndex].word| == WordLength && |guesses[tryIndex].bgColors| == WordLength
    requires forall i :: 0 <= i < WordLength ==> guesses[tryIndex].bgColors[i] != Correct
    modifies guesses
    ensures guesses[..] == old(guesses[..])[tryIndex := old(guesses[tryIndex]).(bgColors :=
              Overlay(old(guesses[tryIndex].bgColors), Score(old(guesses[tryIndex].word), targetWord)))]
  {
    var correctLetters := targetWord;
    var frequency := BuildFrequency(correctLetters);
    var row := guesses[tryIndex];
    var guessLetters, bgColors := row.word, row.bgColors;
    StartTable(frequency, guessLetters, targetWord);
    for index := 0 to 5
      invariant guesses[..] == old(guesses[..])
      invariant frequency == ExactTable(guessLetters, targetWord, index)
      invariant forall c :: c in frequency ==> frequency[c] >= 0
      invariant bgColors == ExactPainted(row.bgColors, guessLetters, targetWord, index)
    {
      var correctLetter := correctLetters[index];
      var guessLetter := guessLetters[index];
      ExactStep(row.bgColors, guessLetters, targetWord, index);
      TablesNonNegative(guessLetters, targetWord, index + 1);
      if guessLetter == correctLetter {
        bgColors := bgColors[index := Correct];
        frequency := frequency[guessLetter := frequency[guessLetter] - 1];
      }
    }
    BetweenPasses(row.bgColors, guessLetters, targetWord);
    for index := 0 to 5
      invariant guesses[..] == old(guesses[..])
      invariant frequency == MisplacedTable(guessLetters, targetWord, index)
      invariant forall c :: c in frequency ==> frequency[c] >= 0
      invariant bgColors == MisplacedPainted(row.bgColors, guessLetters, targetWord, index)
    {
      var guessLetter := guessLetters[index];
      MisplacedStep(row.bgColors, guessLetters, targetWord, index);
      TablesNonNegative(guessLetters, targetWord, index + 1);
      if guessLetter in correctLetters && bgColors[index] != Correct && frequency[guessLetter] > 0 {
        bgColors := bgColors[index := Misplaced];
        frequency := frequency[guessLetter := frequency[guessLetter] - 1];
      }
    }
    PassesDone(row.bgColors, guessLetters, targetWord);
    guesses[tryIndex] := row.(bgColors := bgColors);
  }

  /** The page as a whole: six fresh rows, BOOKS typed into row 0, scored
      against BONDS; the printed `matchedLetters` is "CCWWC". */
  method WordCheckPage() returns (printed: string)
    ensures printed == "CCWWC"
  {
    var targetWord := "BONDS";
    var tryIndex := 0;
    var guesses := new Guesses.Guess<Color>[6];
    for index := 0 to 6
      invariant forall i :: 0 <= i < index ==> guesses[i] == BlankRow(i)
    {
      guesses[index] := BlankRow(index);
    }
    guesses[tryIndex] := guesses[tryIndex].(word := "BOOKS");
    SetCurrentGuessColors(guesses, tryIndex, targetWord);
    BondsBooks();
    assert guesses[tryIndex].bgColors == Overlay(seq(5, _ => Wrong), Score("BOOKS", "BONDS"));
    OverlayFresh(Score("BOOKS", "BONDS"));
    printed := MatchedLetters(guesses[tryIndex]);
  }
}
