/** Letter-level vocabulary shared by the scoring page and the game engine:
    the alphabet the engine registers, letter counting, de-duplicated lists,
    and the two library operations the engine relies on (removing the
    first occurrence from an array, padding a string). */
module Letters {

  datatype Option<T> = None | Some(value: T)

  /** The 26 keys whose colours the engine resets at the start of a game. */
  const Alphabet: string := "ABCDEFGHIJKLMNOPQRSTUVWXYZ"

  /** A key of the on-screen keyboard. */
  predicate IsLetter(c: char) {
    'A' <= c <= 'Z'
  }

  /** The alphabet holds exactly the keyboard's letters. */
  lemma AlphabetLetters()
    ensures forall c :: c in Alphabet <==> IsLetter(c)
  {
    var letters := seq(26, i requires 0 <= i < 26 => ('A' as int + i) as char);
    assert Alphabet == letters;
    forall c | IsLetter(c) ensures c in letters {
      assert letters[c as int - 'A' as int] == c;
    }
  }

  /** The engine scores positions 0...4: every word it handles has five letters. */
  const WordLength: nat := 5

  predicate NoDup(s: seq<char>) {
    forall i, j :: 0 <= i < j < |s| ==> s[i] != s[j]
  }

  /** Occurrences of `c` among the first `k` letters of `s`. */
  function CountBefore(s: seq<char>, k: nat, c: char): nat
    requires k <= |s|
  {
    if k == 0 then 0 else CountBefore(s, k - 1, c) + (if s[k - 1] == c then 1 else 0)
  }

  /** Occurrences of `c` in `s`. */
  function Count(s: seq<char>, c: char): nat {
    CountBefore(s, |s|, c)
  }

  function Min(a: int, b: int): int {
    if a <= b then a else b
  }

  lemma {:induction false} CountBeforePositive(s: seq<char>, k: nat, c: char)
    requires k <= |s|
    ensures CountBefore(s, k, c) > 0 <==> c in s[..k]
  {
    if k > 0 {
      CountBeforePositive(s, k - 1, c);
      assert s[..k] == s[..k - 1] + [s[k - 1]];
    }
  }

  lemma {:induction false} CountBeforeAtMostCount(s: seq<char>, k: nat, c: char)
    requires k <= |s|
    ensures CountBefore(s, k, c) <= Count(s, c)
    decreases |s| - k
  {
    if k < |s| {
      CountBeforeAtMostCount(s, k + 1, c);
    }
  }

  /** A letter occurs in a word exactly when its count there is positive. */
  lemma CountPositive(s: seq<char>, c: char)
    ensures Count(s, c) > 0 <==> c in s
  {
    CountBeforePositive(s, |s|, c);
    assert s[..|s|] == s;
  }

  /** `firstIndex(where: { $0 == c })` on a list that holds `c`: the position
      of its first occurrence. */
  function FirstIndex(s: seq<char>, c: char): (i: nat)
    requires c in s
    ensures i < |s| && s[i] == c && c !in s[..i]
  {
    if s[0] == c then 0
    else
      var j := FirstIndex(s[1..], c);
      assert s[..j + 1] == [s[0]] + s[1..][..j];
      j + 1
  }

  /** `firstIndex(where:)` followed by `remove(at:)`: the first occurrence of `c`
      is dropped and the order of the others is kept. */
  function RemoveFirst(s: seq<char>, c: char): (r: seq<char>)
    ensures c !in s ==> r == s
    ensures c in s ==> |r| == |s| - 1 && r == s[..FirstIndex(s, c)] + s[FirstIndex(s, c) + 1..]
  {
    if s == [] then []
    else if s[0] == c then s[1..]
    else
      var t := s[1..];
      var r := RemoveFirst(t, c);
      if c in t then
        var j := FirstIndex(t, c);
        assert FirstIndex(s, c) == j + 1;
        assert s[..j + 1] == [s[0]] + t[..j];
        assert s[j + 2..] == t[j + 1..];
        assert [s[0]] + r == [s[0]] + (t[..j] + t[j + 1..]);
        [s[0]] + r
      else
        assert c !in s by { assert s == [s[0]] + t; }
        [s[0]] + r
  }

  /** Dropping one position of a list without duplicates leaves a list
      without duplicates that holds every other letter. */
  lemma DropAtNoDup(s: seq<char>, k: nat)
    requires NoDup(s) && k < |s|
    ensures NoDup(s[..k] + s[k + 1..])
    ensures forall x :: x in s[..k] + s[k + 1..] <==> x in s && x != s[k]
  {
    var r := s[..k] + s[k + 1..];
    forall i, j | 0 <= i < j < |r| ensures r[i] != r[j] {
      assert r[i] == s[if i < k then i else i + 1];
      assert r[j] == s[if j < k then j else j + 1];
    }
    forall x ensures x in r <==> x in s && x != s[k] {
      if x in s && x != s[k] {
        var m :| 0 <= m < |s| && s[m] == x;
        assert r[if m < k then m else m - 1] == x;
      }
      if x in r {
        var i :| 0 <= i < |r| && r[i] == x;
        assert s[if i < k then i else i + 1] == x;
      }
    }
  }

  /** On a list without duplicates, removing the first occurrence removes the letter. */
  lemma RemoveFirstNoDup(s: seq<char>, c: char)
    requires NoDup(s)
    ensures NoDup(RemoveFirst(s, c))
    ensures forall x :: x in RemoveFirst(s, c) <==> x in s && x != c
  {
    if c in s {
      DropAtNoDup(s, FirstIndex(s, c));
    }
  }

  /** `String.padding(toLength: n, withPad: " ", startingAt: 0)`: cut to `n`
      characters, or filled up with spaces on the right. */
  function Pad(s: string, n: nat): (r: string)
    ensures |r| == n
    ensures forall i :: 0 <= i < n ==> r[i] == if i < |s| then s[i] else ' '
  {
    if |s| >= n then s[..n] else s + seq(n - |s|, _ => ' ')
  }
}
