/** The pure rules of the game engine (Shared/ViewModels/WordleDataModel.swift):
    the messages it shows, the two hard-mode validators, how a scored row is
    painted, and the bookkeeping of what is known about each letter (key
    colours, matched letters, misplaced letters, letters pinned to a position).

    The bookkeeping follows the engine's three loops over positions 0...4 in
    order: the exact-match pass, the misplaced pass and the wrong-key pass.
    `RecordEffect` then states what the three passes amount to, letter by
    letter, independently of the order they run in. */
module EngineRules {
  import opened Letters
  import opened Guesses
  import WordCheck

  /** What the toast shows: the praise for a win, the dictionary rejection,
      the two hard-mode rejections and the loss message naming the target. */
  datatype Toast =
    | Win(praise: string)
    | NotInWordList
    | LetterMustBe(ordinal: nat, letter: char)
    | MustContain(letter: char)
    | Lose(targetWord: string)

  /** Praise indexed by the row the game was won on. */
  const ToastWinWords: seq<string> :=
    ["Genius!", "Magnificent!", "Impressive!", "Good enough!", "A close one!", "Phew!"]

  // ---------------------------------------------------------------- hard mode

  /** Position `i` of `word` breaks a letter pinned there by an earlier guess. */
  predicate PinBroken(pinned: seq<char>, word: string, i: nat)
    requires i < |pinned| && i < |word|
  {
    pinned[i] != '-' && word[i] != pinned[i]
  }

  /** The lowest position at or after `from` that breaks a pin. */
  function FirstPinBroken(pinned: seq<char>, word: string, from: nat): (r: Option<nat>)
    requires |pinned| == |word| && from <= |pinned|
    ensures r.Some? ==> from <= r.value < |pinned| && PinBroken(pinned, word, r.value)
    ensures r.Some? ==> forall j :: from <= j < r.value ==> !PinBroken(pinned, word, j)
    ensures r.None? ==> forall j :: from <= j < |pinned| ==> !PinBroken(pinned, word, j)
    decreases |pinned| - from
  {
    if from == |pinned| then None
    else if PinBroken(pinned, word, from) then Some(from)
    else FirstPinBroken(pinned, word, from + 1)
  }

  /** `hardModeCorrectCheck`: no message when every pinned letter is kept;
      otherwise the message names the lowest breaking position, 1-based, and
      the letter pinned there. */
  function HardModeCorrectCheck(pinned: seq<char>, word: string): (r: Option<Toast>)
    requires |pinned| == |word| == WordLength
    ensures r.None? <==> forall i :: 0 <= i < WordLength ==> !PinBroken(pinned, word, i)
    ensures r.Some? ==>
      r.value.LetterMustBe? && 1 <= r.value.ordinal <= WordLength
      && PinBroken(pinned, word, r.value.ordinal - 1)
      && r.value.letter == pinned[r.value.ordinal - 1]
      && forall j :: 0 <= j < r.value.ordinal - 1 ==> !PinBroken(pinned, word, j)
  {
    match FirstPinBroken(pinned, word, 0)
    case None => None
    case Some(i) => Some(LetterMustBe(i + 1, pinned[i]))
  }

  /** The first entry at or after `from` of `misplaced` that `word` lacks. */
  function FirstMissing(misplaced: seq<char>, word: string, from: nat): (r: Option<nat>)
    requires from <= |misplaced|
    ensures r.Some? ==> from <= r.value < |misplaced| && misplaced[r.value] !in word
    ensures r.Some? ==> forall j :: from <= j < r.value ==> misplaced[j] in word
    ensures r.None? ==> forall j :: from <= j < |misplaced| ==> misplaced[j] in word
    decreases |misplaced| - from
  {
    if from == |misplaced| then None
    else if misplaced[from] !in word then Some(from)
    else FirstMissing(misplaced, word, from + 1)
  }

  /** `hardModeMisplacedCheck`: no message when the word contains every letter
      known to be misplaced; otherwise the message names the first such
      letter, in the order the letters were found, that the word lacks. */
  function HardModeMisplacedCheck(misplaced: seq<char>, word: string): (r: Option<Toast>)
    ensures r.None? <==> forall c :: c in misplaced ==> c in word
    ensures r.Some? ==>
      r.value.MustContain? && r.value.letter in misplaced && r.value.letter !in word
      && exists j :: 0 <= j < |misplaced| && misplaced[j] == r.value.letter
                     && forall i :: 0 <= i < j ==> misplaced[i] in word
  {
    match FirstMissing(misplaced, word, 0)
    case None => None
    case Some(j) => Some(MustContain(misplaced[j]))
  }

  // ---------------------------------------------------------------- painting a row

  /** The engine paints only correct and misplaced tiles; the others keep
      their colour. */
  function Paint(bg: seq<Color>, marks: seq<WordCheck.Color>): (r: seq<Color>)
    requires |bg| == |marks|
    ensures |r| == |bg|
  {
    seq(|bg|, i requires 0 <= i < |bg| =>
      match marks[i]
      case Correct => Color.Correct
      case Misplaced => Color.Misplaced
      case Wrong => bg[i])
  }

  /** Painting one more mark changes that tile only. */
  lemma PaintMark(bg: seq<Color>, marks: seq<WordCheck.Color>, i: nat, m: WordCheck.Color)
    requires |bg| == |marks| && i < |bg| && m != WordCheck.Wrong
    ensures Paint(bg, marks[i := m]) == Paint(bg, marks)[i := if m == WordCheck.Correct then Correct else Misplaced]
  {
  }

  /** A tile shows correct exactly where its mark is correct, unless it already did. */
  lemma PaintCorrect(bg: seq<Color>, marks: seq<WordCheck.Color>, i: nat)
    requires |bg| == |marks| && i < |bg| && bg[i] != Correct
    ensures Paint(bg, marks)[i] == Correct <==> marks[i] == WordCheck.Correct
  {
  }

  /** Row `row` once its word is scored against `target`. */
  function Scored(row: Guess<Color>, target: string): Guess<Color>
    requires |row.word| == |target| == |row.bgColors|
  {
    row.(bgColors := Paint(row.bgColors, WordCheck.Score(row.word, target)))
  }

  /** What a scored row shows: a tile is correct exactly where the letters
      agree, misplaced exactly where the reference score says so, and every
      other tile keeps its colour; no letter gets more coloured tiles than it
      has occurrences in the target. */
  lemma ScoredRow(row: Guess<Color>, target: string, c: char)
    requires |row.word| == |target| == |row.bgColors|
    requires forall i :: 0 <= i < |row.bgColors| ==> row.bgColors[i] != Correct && row.bgColors[i] != Misplaced
    ensures var r := Scored(row, target);
      r.index == row.index && r.word == row.word && r.cardFlipped == row.cardFlipped
      && (forall i :: 0 <= i < |target| ==> (r.bgColors[i] == Correct <==> row.word[i] == target[i]))
      && (forall i :: 0 <= i < |target| ==>
            (r.bgColors[i] == Misplaced <==> WordCheck.Score(row.word, target)[i] == WordCheck.Misplaced))
      && (forall i :: 0 <= i < |target| ==>
            r.bgColors[i] == Correct || r.bgColors[i] == Misplaced || r.bgColors[i] == row.bgColors[i])
      && WordCheck.MarkedBefore(WordCheck.Score(row.word, target), row.word, |target|, c) <= Count(target, c)
  {
    WordCheck.LetterCredit(row.word, target, c);
  }

  // ---------------------------------------------------------------- letter bookkeeping

  /** What the engine knows about letters: the key colours, the letters found
      in place (`matchedLetters`), the letters found out of place
      (`misplacedLetters`) and, per position, the letter found there or '-'
      (`correctlyPlacedLetters`). */
  datatype Clues = Clues(keys: map<char, Color>, matched: seq<char>, misplaced: seq<char>, pinned: seq<char>)

  /** The facts the engine keeps between guesses: the lists have no
      duplicates and no common letter, every letter in them is in the target
      and has a key, a key is correct exactly for matched letters and
      misplaced exactly for misplaced letters, and a pin holds the target's
      letter. */
  ghost predicate Consistent(cl: Clues, target: string) {
    |cl.pinned| == |target|
    && NoDup(cl.matched) && NoDup(cl.misplaced)
    && (forall c :: c in cl.matched ==> c !in cl.misplaced)
    && (forall c :: c in cl.matched ==> c in target && c in cl.keys)
    && (forall c :: c in cl.misplaced ==> c in target && c in cl.keys)
    && (forall c :: c in cl.keys ==> (cl.keys[c] == Correct <==> c in cl.matched))
    && (forall c :: c in cl.keys ==> (cl.keys[c] == Misplaced <==> c in cl.misplaced))
    && (forall i :: 0 <= i < |cl.pinned| ==>
          cl.pinned[i] == '-' || (cl.pinned[i] == target[i] && target[i] in cl.matched))
  }

  /** First pass, an exact match of `c` at position `i`. */
  function ExactStep(cl: Clues, c: char, i: nat): (r: Clues)
    requires i < |cl.pinned|
    ensures |r.pinned| == |cl.pinned|
  {
    var cl1 := if c !in cl.matched then cl.(matched := cl.matched + [c], keys := cl.keys[c := Correct]) else cl;
    var cl2 := if c in cl1.misplaced then cl1.(misplaced := RemoveFirst(cl1.misplaced, c)) else cl1;
    cl2.(pinned := cl2.pinned[i := c])
  }

  /** The first pass over positions before `k`. */
  function ExactPass(cl: Clues, g: string, t: string, k: nat): (r: Clues)
    requires |g| == |t| == |cl.pinned| && k <= |g|
    ensures |r.pinned| == |cl.pinned|
  {
    if k == 0 then cl
    else
      var p := ExactPass(cl, g, t, k - 1);
      if g[k - 1] == t[k - 1] then ExactStep(p, g[k - 1], k - 1) else p
  }

  /** Second pass, a misplaced mark on `c`. */
  function MisplacedStep(cl: Clues, c: char): Clues {
    if c !in cl.misplaced && c !in cl.matched
    then cl.(misplaced := cl.misplaced + [c], keys := cl.keys[c := Misplaced])
    else cl
  }

  /** The second pass over positions before `k`. */
  function MisplacedPass(cl: Clues, g: string, marks: seq<WordCheck.Color>, k: nat): Clues
    requires |g| == |marks| && k <= |g|
  {
    if k == 0 then cl
    else
      var p := MisplacedPass(cl, g, marks, k - 1);
      if marks[k - 1] == WordCheck.Misplaced then MisplacedStep(p, g[k - 1]) else p
  }

  /** `wrongKeyColors`, one position: a key neither correct nor misplaced turns wrong. */
  function WrongStep(keys: map<char, Color>, c: char): map<char, Color> {
    if c !in keys || (keys[c] != Correct && keys[c] != Misplaced) then keys[c := Wrong] else keys
  }

  /** `wrongKeyColors` over positions before `k`. */
  function WrongPass(keys: map<char, Color>, g: string, k: nat): map<char, Color>
    requires k <= |g|
  {
    if k == 0 then keys else WrongStep(WrongPass(keys, g, k - 1), g[k - 1])
  }

  /** The bookkeeping of one scored guess `g` against target `t`. */
  function Record(cl: Clues, g: string, t: string): Clues
    requires |g| == |t| == |cl.pinned|
  {
    var p1 := ExactPass(cl, g, t, |g|);
    var p2 := MisplacedPass(p1, g, WordCheck.Score(g, t), |g|);
    p2.(keys := WrongPass(p2.keys, g, |g|))
  }

  /** Positions before `k` holding `c` whose mark is misplaced. */
  function MisplacedBefore(marks: seq<WordCheck.Color>, g: string, k: nat, c: char): nat
    requires k <= |g| && k <= |marks|
  {
    if k == 0 then 0
    else MisplacedBefore(marks, g, k - 1, c) + (if g[k - 1] == c && marks[k - 1] == WordCheck.Misplaced then 1 else 0)
  }

  /** `c` is matched in place somewhere in `g`. */
  predicate ExactLetter(g: string, t: string, c: char)
    requires |g| == |t|
  {
    WordCheck.ExactBefore(g, t, |g|, c) > 0
  }

  /** `c` is marked misplaced somewhere in `g`. */
  predicate MisplacedLetter(g: string, t: string, c: char)
    requires |g| == |t|
  {
    MisplacedBefore(WordCheck.Score(g, t), g, |g|, c) > 0
  }

  // ---------------------------------------------------------------- proofs of the passes

  /** Matched letters keep a correct key. */
  ghost predicate MatchedKeysCorrect(cl: Clues) {
    forall c :: c in cl.matched ==> c in cl.keys && cl.keys[c] == Correct
  }

  lemma {:induction false} ExactPassMatched(cl: Clues, g: string, t: string, k: nat)
    requires |g| == |t| == |cl.pinned| && k <= |g|
    ensures forall c :: c in ExactPass(cl, g, t, k).matched <==> c in cl.matched || WordCheck.ExactBefore(g, t, k, c) > 0
  {
    if k > 0 {
      ExactPassMatched(cl, g, t, k - 1);
    }
  }

  lemma {:induction false} ExactPassNoDup(cl: Clues, g: string, t: string, k: nat)
    requires |g| == |t| == |cl.pinned| && k <= |g| && NoDup(cl.matched)
    ensures NoDup(ExactPass(cl, g, t, k).matched)
  {
    if k > 0 {
      ExactPassNoDup(cl, g, t, k - 1);
      var p := ExactPass(cl, g, t, k - 1);
      var c := g[k - 1];
      if g[k - 1] == t[k - 1] && c !in p.matched {
        var m := p.matched + [c];
        forall a, b | 0 <= a < b < |m| ensures m[a] != m[b] {
          if b == |p.matched| {
            assert m[a] == p.matched[a];
          }
        }
      }
    }
  }

  lemma {:induction false} ExactPassMisplaced(cl: Clues, g: string, t: string, k: nat)
    requires |g| == |t| == |cl.pinned| && k <= |g| && NoDup(cl.misplaced)
    requires forall c :: c in cl.matched ==> c !in cl.misplaced
    ensures var p := ExactPass(cl, g, t, k);
      NoDup(p.misplaced) && forall c :: c in p.misplaced <==> c in cl.misplaced && c !in p.matched
  {
    if k > 0 {
      ExactPassMisplaced(cl, g, t, k - 1);
      ExactPassMatched(cl, g, t, k - 1);
      ExactPassMatched(cl, g, t, k);
      var p := ExactPass(cl, g, t, k - 1);
      if g[k - 1] == t[k - 1] {
        var c := g[k - 1];
        var cl1 := if c !in p.matched then p.(matched := p.matched + [c], keys := p.keys[c := Correct]) else p;
        RemoveFirstNoDup(cl1.misplaced, c);
        var q := ExactPass(cl, g, t, k);
        assert q.misplaced == if c in p.misplaced then RemoveFirst(p.misplaced, c) else p.misplaced;
        assert c in q.matched;
        forall d ensures d in q.misplaced <==> d in cl.misplaced && d !in q.matched {
          assert d in q.matched <==> d in p.matched || d == c;
        }
        assert NoDup(q.misplaced);
      } else {
        assert ExactPass(cl, g, t, k) == p;
      }
    }
  }

  lemma {:induction false} ExactPassKeys(cl: Clues, g: string, t: string, k: nat)
    requires |g| == |t| == |cl.pinned| && k <= |g| && MatchedKeysCorrect(cl)
    ensures var p := ExactPass(cl, g, t, k);
      MatchedKeysCorrect(p)
      && (forall c :: c in p.keys <==> c in cl.keys || c in p.matched)
      && (forall c :: c in p.keys ==> p.keys[c] == if c in p.matched then Correct else cl.keys[c])
  {
    if k > 0 {
      ExactPassKeys(cl, g, t, k - 1);
    }
  }

  lemma {:induction false} ExactPassPinned(cl: Clues, g: string, t: string, k: nat)
    requires |g| == |t| == |cl.pinned| && k <= |g|
    ensures forall i :: 0 <= i < |t| ==>
      ExactPass(cl, g, t, k).pinned[i] == if i < k && g[i] == t[i] then t[i] else cl.pinned[i]
  {
    if k > 0 {
      ExactPassPinned(cl, g, t, k - 1);
    }
  }

  /** A letter matched in place occurs in the target. */
  lemma ExactInTarget(g: string, t: string, k: nat, c: char)
    requires |g| == |t| && k <= |g|
    ensures WordCheck.ExactBefore(g, t, k, c) > 0 ==> c in t
  {
    WordCheck.ExactAtMostCount(g, t, k, c);
    CountPositive(t, c);
  }

  lemma ExactPassEffect(cl: Clues, g: string, t: string, k: nat)
    requires Consistent(cl, t) && |g| == |t| && k <= |g|
    ensures var p := ExactPass(cl, g, t, k);
      Consistent(p, t)
      && (forall c :: c in p.matched <==> c in cl.matched || WordCheck.ExactBefore(g, t, k, c) > 0)
      && (forall c :: c in p.misplaced <==> c in cl.misplaced && c !in p.matched)
      && (forall c :: c in p.keys <==> c in cl.keys || c in p.matched)
      && (forall c :: c in p.keys ==> p.keys[c] == if c in p.matched then Correct else cl.keys[c])
      && (forall i :: 0 <= i < |t| ==> p.pinned[i] == if i < k && g[i] == t[i] then t[i] else cl.pinned[i])
  {
    var p := ExactPass(cl, g, t, k);
    ExactPassMatched(cl, g, t, k);
    ExactPassNoDup(cl, g, t, k);
    ExactPassMisplaced(cl, g, t, k);
    ExactPassKeys(cl, g, t, k);
    ExactPassPinned(cl, g, t, k);
    forall c | c in p.matched ensures c in t {
      ExactInTarget(g, t, k, c);
    }
    forall i | 0 <= i < |t| && i < k && g[i] == t[i] ensures t[i] in p.matched {
      ExactAtLeastOne(g, t, k, i);
    }
  }

  lemma MisplacedStepEffect(cl: Clues, t: string, c: char)
    requires Consistent(cl, t) && c in t
    ensures var r := MisplacedStep(cl, c);
      Consistent(r, t)
      && r.matched == cl.matched && r.pinned == cl.pinned
      && (forall d :: d in r.misplaced <==> d in cl.misplaced || (d == c && c !in cl.matched))
      && (forall d :: d in r.keys <==> d in cl.keys || d in r.misplaced)
      && (forall d :: d in r.keys ==> r.keys[d] == if d in r.misplaced then Misplaced else cl.keys[d])
  {
    var r := MisplacedStep(cl, c);
    if c !in cl.misplaced && c !in cl.matched {
      assert NoDup(r.misplaced) by {
        forall a, b | 0 <= a < b < |r.misplaced| ensures r.misplaced[a] != r.misplaced[b] {
          if b == |cl.misplaced| {
            assert r.misplaced[a] == cl.misplaced[a];
          }
        }
      }
    }
  }

  /** Every misplaced mark falls on a letter of the target. */
  ghost predicate MarksInTarget(marks: seq<WordCheck.Color>, g: string, t: string) {
    |marks| == |g| && forall i :: 0 <= i < |g| && marks[i] == WordCheck.Misplaced ==> g[i] in t
  }

  lemma {:induction false} MisplacedPassEffect(cl: Clues, g: string, t: string, marks: seq<WordCheck.Color>, k: nat)
    requires Consistent(cl, t) && MarksInTarget(marks, g, t) && k <= |g|
    ensures var p := MisplacedPass(cl, g, marks, k);
      Consistent(p, t)
      && p.matched == cl.matched && p.pinned == cl.pinned
      && (forall c :: c in p.misplaced <==>
            c in cl.misplaced || (MisplacedBefore(marks, g, k, c) > 0 && c !in cl.matched))
      && (forall c :: c in p.keys <==> c in cl.keys || c in p.misplaced)
      && (forall c :: c in p.keys ==> p.keys[c] == if c in p.misplaced then Misplaced else cl.keys[c])
  {
    if k > 0 {
      MisplacedPassEffect(cl, g, t, marks, k - 1);
      if marks[k - 1] == WordCheck.Misplaced {
        MisplacedStepEffect(MisplacedPass(cl, g, marks, k - 1), t, g[k - 1]);
      }
    }
  }

  lemma {:induction false} WrongPassEffect(keys: map<char, Color>, g: string, k: nat)
    requires k <= |g|
    ensures var r := WrongPass(keys, g, k);
      (forall c :: c in r <==> c in keys || CountBefore(g, k, c) > 0)
      && (forall c :: c in r ==>
            r[c] == if CountBefore(g, k, c) > 0 && (c !in keys || (keys[c] != Correct && keys[c] != Misplaced))
                    then Wrong else keys[c])
  {
    if k > 0 {
      WrongPassEffect(keys, g, k - 1);
    }
  }

  lemma {:induction false} MisplacedBeforeAtMostCount(marks: seq<WordCheck.Color>, g: string, k: nat, c: char)
    requires k <= |g| && k <= |marks|
    ensures MisplacedBefore(marks, g, k, c) <= CountBefore(g, k, c)
  {
    if k > 0 {
      MisplacedBeforeAtMostCount(marks, g, k - 1, c);
    }
  }

  /** A letter matched or marked misplaced in `g` occurs in `g`. */
  lemma FoundLettersOccur(g: string, t: string, c: char)
    requires |g| == |t|
    ensures ExactLetter(g, t, c) ==> c in g
    ensures MisplacedLetter(g, t, c) ==> c in g
  {
    WordCheck.ExactAtMostGuessCount(g, t, |g|, c);
    MisplacedBeforeAtMostCount(WordCheck.Score(g, t), g, |g|, c);
    CountPositive(g, c);
  }

  // ---------------------------------------------------------------- what one guess does

  /** The bookkeeping of one guess, letter by letter: a letter is matched when
      it was before or is matched in place now; it is misplaced when it was
      before or is marked misplaced now, unless it is matched; every letter of
      the guess gets a key, coloured correct for matched letters, misplaced for
      misplaced letters and wrong otherwise; other keys keep their colour; a
      position is pinned to the target's letter where the guess matches; and
      the facts of `Consistent` are kept. */
  lemma RecordEffect(cl: Clues, g: string, t: string)
    requires Consistent(cl, t) && |g| == |t|
    ensures var r := Record(cl, g, t);
      Consistent(r, t)
      && (forall c :: c in r.matched <==> c in cl.matched || ExactLetter(g, t, c))
      && (forall c :: c in r.misplaced <==> (c in cl.misplaced || MisplacedLetter(g, t, c)) && c !in r.matched)
      && (forall c :: c in r.keys <==> c in cl.keys || c in g)
      && (forall c :: c in r.keys ==>
            r.keys[c] == if c in r.matched then Correct
                         else if c in r.misplaced then Misplaced
                         else if c in g then Wrong
                         else cl.keys[c])
      && (forall i :: 0 <= i < |t| ==> r.pinned[i] == if g[i] == t[i] then t[i] else cl.pinned[i])
  {
    var marks := WordCheck.Score(g, t);
    var p1 := ExactPass(cl, g, t, |g|);
    var p2 := MisplacedPass(p1, g, marks, |g|);
    var r := Record(cl, g, t);
    ExactPassEffect(cl, g, t, |g|);
    forall i | 0 <= i < |g| && marks[i] == WordCheck.Misplaced ensures g[i] in t {
      WordCheck.MisplacedMeans(g, t, i);
    }
    MisplacedPassEffect(p1, g, t, marks, |g|);
    WrongPassEffect(p2.keys, g, |g|);
    CountPositiveAll(g);
    forall c ensures (ExactLetter(g, t, c) ==> c in g) && (MisplacedLetter(g, t, c) ==> c in g) {
      FoundLettersOccur(g, t, c);
    }
    assert r.matched == p1.matched && r.misplaced == p2.misplaced && r.pinned == p1.pinned;
    forall c | c in r.keys
      ensures r.keys[c] == if c in r.matched then Correct
                           else if c in r.misplaced then Misplaced
                           else if c in g then Wrong
                           else cl.keys[c]
    {
      if c in r.matched {
      } else if c in r.misplaced {
      } else if c in g {
        assert c !in cl.misplaced;
      } else {
        assert c in p2.keys;
      }
    }
  }

  lemma CountPositiveAll(g: string)
    ensures forall c :: CountBefore(g, |g|, c) > 0 <==> c in g
  {
    forall c ensures CountBefore(g, |g|, c) > 0 <==> c in g {
      CountPositive(g, c);
    }
  }

  /** Order of the key colours: unused, wrong, misplaced, correct. */
  function Rank(color: Color): nat {
    match color
    case Correct => 3
    case Misplaced => 2
    case Wrong => 1
    case Unused => 0
    case SystemBackground => 0
  }

  /** Key colours never go down: a key keeps its place, a correct key stays
      correct, and every letter of the guess ends up correct, misplaced or wrong. */
  lemma KeyColorsMonotone(cl: Clues, g: string, t: string)
    requires Consistent(cl, t) && |g| == |t|
    ensures var r := Record(cl, g, t);
      (forall c :: c in cl.keys ==> c in r.keys && Rank(cl.keys[c]) <= Rank(r.keys[c]))
      && (forall c :: c in cl.keys && cl.keys[c] == Correct ==> r.keys[c] == Correct)
      && (forall i :: 0 <= i < |g| ==>
            g[i] in r.keys && r.keys[g[i]] in {Correct, Misplaced, Wrong})
  {
    RecordEffect(cl, g, t);
  }

  /** Entering the target itself pins every position and turns every one of
      its letters' keys correct. */
  lemma RecordWin(cl: Clues, t: string)
    requires Consistent(cl, t)
    ensures var r := Record(cl, t, t);
      r.pinned == t
      && forall i :: 0 <= i < |t| ==> t[i] in r.matched && t[i] in r.keys && r.keys[t[i]] == Correct
  {
    RecordEffect(cl, t, t);
    forall i | 0 <= i < |t| ensures ExactLetter(t, t, t[i]) {
      ExactAtLeastOne(t, t, |t|, i);
    }
  }

  lemma {:induction false} ExactAtLeastOne(g: string, t: string, k: nat, i: nat)
    requires |g| == |t| && i < k <= |g| && g[i] == t[i]
    ensures WordCheck.ExactBefore(g, t, k, g[i]) > 0
  {
    if k - 1 != i {
      ExactAtLeastOne(g, t, k - 1, i);
    }
  }

  /** The hard-mode rules never reject the target: every pin holds its letter
      and every misplaced letter is in it, so the game stays winnable. */
  lemma TargetPassesHardMode(cl: Clues, t: string)
    requires Consistent(cl, t) && |t| == WordLength
    ensures HardModeCorrectCheck(cl.pinned, t).None?
    ensures HardModeMisplacedCheck(cl.misplaced, t).None?
  {
  }
}
