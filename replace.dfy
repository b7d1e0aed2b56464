/**
 * Literal string replacement as `String.prototype.replaceAll` performs it in
 * src/index.js: every non-overlapping occurrence, found left to right, is
 * replaced. The word-bounded variant is the `(?<!\w)(name)(?!\w)` expression
 * the math path builds for each variable name.
 */
module Replace {

  /** `\w` */
  predicate IsWordChar(c: char) {
    ('a' <= c <= 'z') || ('A' <= c <= 'Z') || ('0' <= c <= '9') || c == '_'
  }

  predicate OccursAt(s: string, i: nat, pat: string) {
    i + |pat| <= |s| && s[i..i + |pat|] == pat
  }

  /** Neither neighbour of `s[i..i + n]` is a word character. */
  predicate WordBounded(s: string, i: nat, n: nat)
    requires i + n <= |s|
  {
    (i == 0 || !IsWordChar(s[i - 1])) && (i + n == |s| || !IsWordChar(s[i + n]))
  }

  /** Replace the occurrences of `pat` in `s[i..]`; with `words`, only word-bounded ones. */
  function ReplaceFrom(s: string, i: nat, pat: string, rep: string, words: bool): string
    requires pat != [] && i <= |s|
    decreases |s| - i
  {
    if i == |s| then []
    else if OccursAt(s, i, pat) && (!words || WordBounded(s, i, |pat|)) then
      rep + ReplaceFrom(s, i + |pat|, pat, rep, words)
    else [s[i]] + ReplaceFrom(s, i + 1, pat, rep, words)
  }

  /** `s.replaceAll(pat, rep)` with a string pattern. */
  function ReplaceAll(s: string, pat: string, rep: string): string
    requires pat != []
  {
    ReplaceFrom(s, 0, pat, rep, false)
  }

  /** `s.replaceAll(new RegExp('(?<!\\w)(' + word + ')(?!\\w)', 'g'), rep)`, the word read literally. */
  function ReplaceWord(s: string, word: string, rep: string): string
    requires word != []
  {
    ReplaceFrom(s, 0, word, rep, true)
  }

  /** Without an occurrence there is nothing to replace. */
  lemma {:induction false} ReplaceFromAbsent(s: string, i: nat, pat: string, rep: string, words: bool)
    requires pat != [] && i <= |s|
    requires forall k :: i <= k < |s| ==> !OccursAt(s, k, pat)
    ensures ReplaceFrom(s, i, pat, rep, words) == s[i..]
    decreases |s| - i
  {
    if i < |s| {
      ReplaceFromAbsent(s, i + 1, pat, rep, words);
      assert s[i..] == [s[i]] + s[i + 1..];
    }
  }

  /** Replacing a pattern by itself changes nothing. */
  lemma {:induction false} ReplaceFromSelf(s: string, i: nat, pat: string, words: bool)
    requires pat != [] && i <= |s|
    ensures ReplaceFrom(s, i, pat, pat, words) == s[i..]
    decreases |s| - i
  {
    if i < |s| {
      if OccursAt(s, i, pat) && (!words || WordBounded(s, i, |pat|)) {
        ReplaceFromSelf(s, i + |pat|, pat, words);
        SelfHit(s, i, pat, words);
      } else {
        ReplaceFromSelf(s, i + 1, pat, words);
        SelfMiss(s, i, pat, words);
      }
    }
  }

  /** An occurrence replaced by itself is the text it covered. */
  lemma SelfHit(s: string, i: nat, pat: string, words: bool)
    requires pat != [] && i < |s| && OccursAt(s, i, pat) && (!words || WordBounded(s, i, |pat|))
    requires ReplaceFrom(s, i + |pat|, pat, pat, words) == s[i + |pat|..]
    ensures ReplaceFrom(s, i, pat, pat, words) == s[i..]
  {
    assert s[i..] == s[i..i + |pat|] + s[i + |pat|..];
  }

  /** A character kept is the text it came from. */
  lemma SelfMiss(s: string, i: nat, pat: string, words: bool)
    requires pat != [] && i < |s| && !(OccursAt(s, i, pat) && (!words || WordBounded(s, i, |pat|)))
    requires ReplaceFrom(s, i + 1, pat, pat, words) == s[i + 1..]
    ensures ReplaceFrom(s, i, pat, pat, words) == s[i..]
  {
    assert s[i..] == [s[i]] + s[i + 1..];
  }

  /** An occurrence in `y` is an occurrence at the same place in `x + y`, and back. */
  lemma OccursShift(x: string, y: string, j: nat, pat: string)
    requires j <= |y|
    ensures OccursAt(x + y, |x| + j, pat) <==> OccursAt(y, j, pat)
  {
    if j + |pat| <= |y| {
      assert (x + y)[|x| + j..|x| + j + |pat|] == y[j..j + |pat|];
    }
  }

  /** Plain replacement only looks forward, so a prefix before the cursor plays no part. */
  lemma {:induction false} ReplaceFromShift(x: string, y: string, j: nat, pat: string, rep: string)
    requires pat != [] && j <= |y|
    ensures ReplaceFrom(x + y, |x| + j, pat, rep, false) == ReplaceFrom(y, j, pat, rep, false)
    decreases |y| - j
  {
    if j < |y| {
      OccursShift(x, y, j, pat);
      if OccursAt(y, j, pat) {
        ReplaceFromShift(x, y, j + |pat|, pat, rep);
        ShiftHit(x, y, j, pat, rep);
      } else {
        ReplaceFromShift(x, y, j + 1, pat, rep);
        ShiftMiss(x, y, j, pat, rep);
      }
    }
  }

  /** Both sides replace the occurrence at the cursor, then go on after it. */
  lemma ShiftHit(x: string, y: string, j: nat, pat: string, rep: string)
    requires pat != [] && j < |y| && OccursAt(y, j, pat) && OccursAt(x + y, |x| + j, pat)
    requires ReplaceFrom(x + y, |x| + j + |pat|, pat, rep, false) == ReplaceFrom(y, j + |pat|, pat, rep, false)
    ensures ReplaceFrom(x + y, |x| + j, pat, rep, false) == ReplaceFrom(y, j, pat, rep, false)
  {
  }

  /** Both sides keep the character at the cursor, then go on after it. */
  lemma ShiftMiss(x: string, y: string, j: nat, pat: string, rep: string)
    requires pat != [] && j < |y| && !OccursAt(y, j, pat) && !OccursAt(x + y, |x| + j, pat)
    requires ReplaceFrom(x + y, |x| + j + 1, pat, rep, false) == ReplaceFrom(y, j + 1, pat, rep, false)
    ensures ReplaceFrom(x + y, |x| + j, pat, rep, false) == ReplaceFrom(y, j, pat, rep, false)
  {
    assert (x + y)[|x| + j] == y[j];
  }

  /** One leading character, then the rest, when that character does not start the (one-character) pattern. */
  lemma ReplaceHead(ch: char, rest: string, c: char, rep: string)
    ensures ReplaceAll([ch] + rest, [c], rep) == (if ch == c then rep else [ch]) + ReplaceAll(rest, [c], rep)
  {
    var s := [ch] + rest;
    assert s[0..1] == [ch];
    ReplaceFromShift([ch], rest, 0, [c], rep);
  }

  /**
   * Replacement finds exactly the non-overlapping occurrences: replacing them
   * by a marker character absent from the text and the marker back by the
   * pattern restores the text.
   */
  lemma {:induction false} MarkerRoundTrip(s: string, i: nat, pat: string, c: char)
    requires pat != [] && i <= |s|
    requires forall k :: 0 <= k < |s| ==> s[k] != c
    ensures ReplaceAll(ReplaceFrom(s, i, pat, [c], false), [c], pat) == s[i..]
    decreases |s| - i
  {
    if i < |s| {
      if OccursAt(s, i, pat) {
        MarkerRoundTrip(s, i + |pat|, pat, c);
        MarkerHit(s, i, pat, c);
      } else {
        MarkerRoundTrip(s, i + 1, pat, c);
        MarkerMiss(s, i, pat, c);
      }
    }
  }

  /** The round trip across an occurrence: the marker turns back into the pattern. */
  lemma MarkerHit(s: string, i: nat, pat: string, c: char)
    requires pat != [] && i < |s| && OccursAt(s, i, pat)
    requires ReplaceAll(ReplaceFrom(s, i + |pat|, pat, [c], false), [c], pat) == s[i + |pat|..]
    ensures ReplaceAll(ReplaceFrom(s, i, pat, [c], false), [c], pat) == s[i..]
  {
    var rest := ReplaceFrom(s, i + |pat|, pat, [c], false);
    assert ReplaceFrom(s, i, pat, [c], false) == [c] + rest;
    ReplaceHead(c, rest, c, pat);
    assert s[i..] == s[i..i + |pat|] + s[i + |pat|..];
  }

  /** The round trip across a character that starts no occurrence and is not the marker. */
  lemma MarkerMiss(s: string, i: nat, pat: string, c: char)
    requires pat != [] && i < |s| && !OccursAt(s, i, pat) && s[i] != c
    requires ReplaceAll(ReplaceFrom(s, i + 1, pat, [c], false), [c], pat) == s[i + 1..]
    ensures ReplaceAll(ReplaceFrom(s, i, pat, [c], false), [c], pat) == s[i..]
  {
    var rest := ReplaceFrom(s, i + 1, pat, [c], false);
    assert ReplaceFrom(s, i, pat, [c], false) == [s[i]] + rest;
    ReplaceHead(s[i], rest, c, pat);
    assert s[i..] == [s[i]] + s[i + 1..];
  }

  /** A name inside a longer word is left alone; the math path relies on this. */
  lemma ReplaceWordSample()
    ensures ReplaceWord("a+ab*a", "a", "2") == "2+ab*2"
  {
    var s := "a+ab*a";
    assert ReplaceFrom(s, 5, "a", "2", true) == "2";
    assert ReplaceFrom(s, 4, "a", "2", true) == "*2";
    assert ReplaceFrom(s, 3, "a", "2", true) == "b*2";
    assert !WordBounded(s, 2, 1);
    assert ReplaceFrom(s, 2, "a", "2", true) == "ab*2";
    assert ReplaceFrom(s, 1, "a", "2", true) == "+ab*2";
  }
}
