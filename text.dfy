/**
 * Stand-ins for the two string library calls that activity-name
 * normalisation relies on: `String.prototype.toLowerCase` (on ASCII letters)
 * and lodash `snakeCase` (word splitting on ASCII punctuation and spaces, words
 * joined by `_`).
 */
module Text {

  predicate IsUpper(c: char) { 'A' <= c <= 'Z' }

  predicate IsAsciiAlphanumeric(c: char) {
    'a' <= c <= 'z' || 'A' <= c <= 'Z' || '0' <= c <= '9'
  }

  /** lodash splits ASCII text into words at every ASCII character that is not a letter or digit. */
  predicate IsSeparator(c: char) {
    c as int < 128 && !IsAsciiAlphanumeric(c)
  }

  predicate NoUpper(s: string) {
    forall i :: 0 <= i < |s| ==> !IsUpper(s[i])
  }

  predicate NoSeparator(s: string) {
    forall i :: 0 <= i < |s| ==> !IsSeparator(s[i])
  }

  /** A word as lodash `words` produces it: non-empty, no separator inside. */
  predicate IsWord(w: string) {
    w != [] && NoSeparator(w)
  }

  predicate AllWords(ws: seq<string>) {
    forall k :: 0 <= k < |ws| ==> IsWord(ws[k])
  }

  predicate AllNoUpper(ws: seq<string>) {
    forall k :: 0 <= k < |ws| ==> NoUpper(ws[k])
  }

  function LowerChar(c: char): char {
    if IsUpper(c) then (c as int - 'A' as int + 'a' as int) as char else c
  }

  /** `toLowerCase`: lower-cases every ASCII letter and leaves every other character alone. */
  function Lower(s: string): (t: string)
    ensures |t| == |s| && NoUpper(t)
    ensures forall i :: 0 <= i < |s| && !IsUpper(s[i]) ==> t[i] == s[i]
    ensures NoUpper(s) ==> t == s
  {
    seq(|s|, i requires 0 <= i < |s| => LowerChar(s[i]))
  }

  lemma LowerConcat(a: string, b: string)
    ensures Lower(a + b) == Lower(a) + Lower(b)
  {
  }

  function Flush(current: string): seq<string> {
    if current == [] then [] else [current]
  }

  /** The words of `s`, where `current` is the word being read when `s` starts. */
  function WordsFrom(s: string, current: string): seq<string>
    decreases |s|
  {
    if s == [] then Flush(current)
    else if IsSeparator(s[0]) then Flush(current) + WordsFrom(s[1..], [])
    else WordsFrom(s[1..], current + [s[0]])
  }

  function Words(s: string): seq<string> {
    WordsFrom(s, [])
  }

  /** The words joined by single underscores. */
  function Join(ws: seq<string>): string
    decreases |ws|
  {
    if ws == [] then []
    else if |ws| == 1 then ws[0]
    else ws[0] + "_" + Join(ws[1..])
  }

  /**
   * Snake-case shape: every separator is a `_` strictly inside the text, and
   * no two separators are adjacent.
   */
  predicate SnakeShaped(t: string) {
    && (forall i :: 0 <= i < |t| && IsSeparator(t[i]) ==> t[i] == '_' && 0 < i < |t| - 1)
    && (forall i, j :: 0 <= i < |t| && 0 <= j < |t| && j == i + 1 ==> !IsSeparator(t[i]) || !IsSeparator(t[j]))
  }

  /** lodash `snakeCase` on text that is already lower case: the same words, joined by `_`. */
  function SnakeCase(s: string): (t: string)
    ensures Words(t) == Words(s)
  {
    WordsFromAreWords(s, []);
    WordsOfJoin(Words(s));
    Join(Words(s))
  }

  /**
   * A snake-cased name is snake-shaped. With `Words(SnakeCase(s)) == Words(s)`
   * this fixes the result completely: the words of `s`, joined by single `_`.
   */
  lemma SnakeCaseShaped(s: string)
    ensures SnakeShaped(SnakeCase(s))
  {
    WordsFromAreWords(s, []);
    JoinShaped(Words(s));
  }

  /** Words joined by single underscores are snake-shaped, and start with the first word. */
  lemma {:induction false} JoinShaped(ws: seq<string>)
    requires AllWords(ws)
    ensures SnakeShaped(Join(ws))
    ensures ws != [] ==> Join(ws) != [] && Join(ws)[0] == ws[0][0]
    decreases |ws|
  {
    if |ws| == 1 {
      assert NoSeparator(ws[0]);
    } else if |ws| > 1 {
      JoinShaped(ws[1..]);
      var w, j := ws[0], Join(ws[1..]);
      var r := w + "_" + j;
      assert IsWord(w) && IsWord(ws[1]);
      assert forall i :: 0 <= i < |r| ==>
        r[i] == if i < |w| then w[i] else if i == |w| then '_' else j[i - |w| - 1];
    }
  }

  /** Reading a run of word characters only extends the current word. */
  lemma {:induction false} WordsFromAbsorb(w: string, rest: string, current: string)
    requires NoSeparator(w)
    ensures WordsFrom(w + rest, current) == WordsFrom(rest, current + w)
    decreases |w|
  {
    if w == [] {
      assert w + rest == rest;
      assert current + w == current;
    } else {
      assert (w + rest)[0] == w[0];
      assert (w + rest)[1..] == w[1..] + rest;
      WordsFromAbsorb(w[1..], rest, current + [w[0]]);
      assert current + [w[0]] + w[1..] == current + w;
    }
  }

  /** A word followed by a separator is the first word of the text. */
  lemma WordsSplit(w: string, c: char, rest: string)
    requires IsWord(w) && IsSeparator(c)
    ensures Words(w + [c] + rest) == [w] + Words(rest)
  {
    assert w + [c] + rest == w + ([c] + rest);
    WordsFromAbsorb(w, [c] + rest, []);
    assert [] + w == w;
    assert ([c] + rest)[0] == c && ([c] + rest)[1..] == rest;
  }

  /** A text that is a single word is its own only word. */
  lemma WordsOfWord(w: string)
    requires IsWord(w)
    ensures Words(w) == [w] && SnakeCase(w) == w
  {
    WordsFromAbsorb(w, [], []);
    assert w + [] == w;
    assert [] + w == w;
  }

  /** Every piece `words` produces is a word, and lower-case input gives lower-case words. */
  lemma {:induction false} WordsFromAreWords(s: string, current: string)
    requires NoSeparator(current)
    ensures AllWords(WordsFrom(s, current))
    ensures NoUpper(s) && NoUpper(current) ==> AllNoUpper(WordsFrom(s, current))
    decreases |s|
  {
    if s == [] {
    } else if IsSeparator(s[0]) {
      WordsFromAreWords(s[1..], []);
      var tail := WordsFrom(s[1..], []);
      assert WordsFrom(s, current) == Flush(current) + tail;
      if NoUpper(s) {
        assert forall i :: 0 <= i < |s[1..]| ==> s[1..][i] == s[i + 1];
      }
    } else {
      var next := current + [s[0]];
      assert forall i :: 0 <= i < |next| ==> next[i] == if i < |current| then current[i] else s[0];
      WordsFromAreWords(s[1..], next);
      if NoUpper(s) {
        assert forall i :: 0 <= i < |s[1..]| ==> s[1..][i] == s[i + 1];
      }
    }
  }

  /** Joining words and splitting the result again gives the words back. */
  lemma {:induction false} WordsOfJoin(ws: seq<string>)
    requires AllWords(ws)
    ensures Words(Join(ws)) == ws
    decreases |ws|
  {
    if ws == [] {
    } else if |ws| == 1 {
      WordsFromAbsorb(ws[0], [], []);
      assert ws[0] + [] == ws[0];
      assert [] + ws[0] == ws[0];
    } else {
      var w, j := ws[0], Join(ws[1..]);
      assert Join(ws) == w + ("_" + j);
      WordsFromAbsorb(w, "_" + j, []);
      assert [] + w == w;
      assert ("_" + j)[0] == '_' && ("_" + j)[1..] == j;
      assert WordsFrom("_" + j, w) == [w] + WordsFrom(j, []);
      WordsOfJoin(ws[1..]);
      assert [w] + ws[1..] == ws;
    }
  }

  lemma {:induction false} JoinNoUpper(ws: seq<string>)
    requires AllNoUpper(ws)
    ensures NoUpper(Join(ws))
    decreases |ws|
  {
    if |ws| > 1 {
      JoinNoUpper(ws[1..]);
      var j := Join(ws[1..]);
      var r := ws[0] + "_" + j;
      assert forall i :: 0 <= i < |r| ==>
        r[i] == if i < |ws[0]| then ws[0][i] else if i == |ws[0]| then '_' else j[i - |ws[0]| - 1];
    }
  }

  /** `snakeCase` is idempotent: a snake-cased name is its own snake case. */
  lemma SnakeCaseIdempotent(s: string)
    ensures SnakeCase(SnakeCase(s)) == SnakeCase(s)
  {
  }

  /** Snake-casing lower-case text gives lower-case text. */
  lemma SnakeCaseKeepsLowerCase(s: string)
    requires NoUpper(s)
    ensures NoUpper(SnakeCase(s))
  {
    WordsFromAreWords(s, []);
    JoinNoUpper(Words(s));
  }
}
