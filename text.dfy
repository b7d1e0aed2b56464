/**
 * Whitespace handling used for variable names and definition contents:
 * JavaScript's `trim()`, the `\s` class and the whitespace-collapsing
 * replacements of src/index.js.
 */
module Text {

  /** JavaScript's `\s` class, which is also the set `String.prototype.trim` removes. */
  predicate IsSpace(c: char) {
    || c == ' ' || c == '\t' || c == '\n' || c == '\r'
    || c == '\U{000B}' || c == '\U{000C}' || c == '\U{00A0}' || c == '\U{1680}'
    || ('\U{2000}' <= c <= '\U{200A}')
    || c == '\U{2028}' || c == '\U{2029}' || c == '\U{202F}' || c == '\U{205F}'
    || c == '\U{3000}' || c == '\U{FEFF}'
  }

  /** The class `[ \t]` used for multi-line block contents. */
  predicate IsBlank(c: char) {
    c == ' ' || c == '\t'
  }

  /** JavaScript's line terminators: what `.` does not match and where `^` and `$` hold in multiline mode. */
  predicate IsLineBreak(c: char) {
    c == '\n' || c == '\r' || c == '\U{2028}' || c == '\U{2029}'
  }

  predicate NoSpace(s: string) {
    forall k :: 0 <= k < |s| ==> !IsSpace(s[k])
  }

  predicate AllSpace(s: string) {
    forall k :: 0 <= k < |s| ==> IsSpace(s[k])
  }

  function TrimStart(s: string): (r: string)
    ensures |r| <= |s| && r == s[|s| - |r|..]
    ensures AllSpace(s[..|s| - |r|])
    ensures r == [] || !IsSpace(r[0])
  {
    if s != [] && IsSpace(s[0]) then TrimStart(s[1..]) else s
  }

  function TrimEnd(s: string): (r: string)
    ensures |r| <= |s| && r == s[..|r|]
    ensures AllSpace(s[|r|..])
    ensures r == [] || !IsSpace(r[|r| - 1])
  {
    if s != [] && IsSpace(s[|s| - 1]) then TrimEnd(s[..|s| - 1]) else s
  }

  /** `s.trim()` */
  function Trim(s: string): (r: string)
    ensures r == [] || (!IsSpace(r[0]) && !IsSpace(r[|r| - 1]))
  {
    TrimEnd(TrimStart(s))
  }

  /** Text without whitespace at either edge is its own trim. */
  lemma TrimUntouched(s: string)
    requires s == [] || (!IsSpace(s[0]) && !IsSpace(s[|s| - 1]))
    ensures Trim(s) == s
  {
    assert TrimStart(s) == s;
  }

  /**
   * `s.replace(/R+/g, ' ')` where `inRun` is the class R: every maximal run of
   * characters of the class becomes one space.
   */
  function Collapse(s: string, inRun: char -> bool): (r: string)
  {
    if s == [] then []
    else if inRun(s[0]) then
      if |s| > 1 && inRun(s[1]) then Collapse(s[1..], inRun) else [' '] + Collapse(s[1..], inRun)
    else [s[0]] + Collapse(s[1..], inRun)
  }

  /** `normalizeVarNames`: trim, then collapse every whitespace run to one space. */
  function NormalizeName(name: string): string {
    Collapse(Trim(name), IsSpace)
  }

  /** Block-definition contents: trim, then collapse runs of spaces and tabs (newlines are kept). */
  function NormalizeBlock(content: string): string {
    Collapse(Trim(content), IsBlank)
  }

  // ---------------------------------------------------------------------
  // An independent description of NormalizeName: the words of the name,
  // joined by single spaces. It is stated for any class of separator
  // characters `inRun`; NormalizeName uses the whitespace class.

  predicate NoneIn(s: string, inRun: char -> bool) {
    forall k :: 0 <= k < |s| ==> !inRun(s[k])
  }

  predicate AllIn(s: string, inRun: char -> bool) {
    forall k :: 0 <= k < |s| ==> inRun(s[k])
  }

  /** The characters before the first separator. */
  function LeadingWord(s: string, inRun: char -> bool): (w: string)
    ensures |w| <= |s| && w == s[..|w|] && NoneIn(w, inRun)
    ensures |w| < |s| ==> inRun(s[|w|])
    ensures s != [] && !inRun(s[0]) ==> w != []
  {
    if s == [] || inRun(s[0]) then [] else [s[0]] + LeadingWord(s[1..], inRun)
  }

  /** What is left after the leading separators. */
  function SkipRun(s: string, inRun: char -> bool): (r: string)
    ensures |r| <= |s| && r == s[|s| - |r|..]
    ensures AllIn(s[..|s| - |r|], inRun)
    ensures r == [] || !inRun(r[0])
  {
    if s != [] && inRun(s[0]) then SkipRun(s[1..], inRun) else s
  }

  /** The maximal runs of non-separator characters of `s`, in order. */
  function Words(s: string, inRun: char -> bool): seq<string>
    decreases |s|
  {
    if s == [] then []
    else if inRun(s[0]) then Words(s[1..], inRun)
    else
      var w := LeadingWord(s, inRun);
      [w] + Words(s[|w|..], inRun)
  }

  function JoinWords(ws: seq<string>): string {
    if |ws| == 0 then [] else if |ws| == 1 then ws[0] else ws[0] + [' '] + JoinWords(ws[1..])
  }

  lemma {:induction false} WordsSkipRun(sp: string, t: string, inRun: char -> bool)
    requires AllIn(sp, inRun)
    ensures Words(sp + t, inRun) == Words(t, inRun)
    decreases |sp|
  {
    if sp != [] {
      var u := sp + t;
      assert u[0] == sp[0];
      assert u[1..] == sp[1..] + t;
      WordsSkipRun(sp[1..], t, inRun);
    } else {
      assert sp + t == t;
    }
  }

  lemma {:induction false} LeadingWordBeforeRun(t: string, sp: string, inRun: char -> bool)
    requires AllIn(sp, inRun)
    ensures LeadingWord(t + sp, inRun) == LeadingWord(t, inRun)
    decreases |t|
  {
    if t == [] {
      if sp != [] { assert (t + sp)[0] == sp[0]; }
    } else if !inRun(t[0]) {
      assert (t + sp)[0] == t[0];
      assert (t + sp)[1..] == t[1..] + sp;
      LeadingWordBeforeRun(t[1..], sp, inRun);
    } else {
      assert (t + sp)[0] == t[0];
    }
  }

  lemma {:induction false} WordsIgnoreTrailingRun(t: string, sp: string, inRun: char -> bool)
    requires AllIn(sp, inRun)
    ensures Words(t + sp, inRun) == Words(t, inRun)
    decreases |t|
  {
    if t == [] {
      WordsSkipRun(sp, [], inRun);
      assert t + sp == sp + [];
    } else if inRun(t[0]) {
      assert (t + sp)[0] == t[0];
      assert (t + sp)[1..] == t[1..] + sp;
      WordsIgnoreTrailingRun(t[1..], sp, inRun);
    } else {
      assert (t + sp)[0] == t[0];
      LeadingWordBeforeRun(t, sp, inRun);
      var w := LeadingWord(t, inRun);
      assert (t + sp)[|w|..] == t[|w|..] + sp;
      WordsIgnoreTrailingRun(t[|w|..], sp, inRun);
    }
  }

  lemma {:induction false} CollapseAfterWord(w: string, x: string, inRun: char -> bool)
    requires NoneIn(w, inRun)
    ensures Collapse(w + x, inRun) == w + Collapse(x, inRun)
    decreases |w|
  {
    if w != [] {
      assert (w + x)[0] == w[0];
      assert (w + x)[1..] == w[1..] + x;
      CollapseAfterWord(w[1..], x, inRun);
      assert w == [w[0]] + w[1..];
    } else {
      assert w + x == x;
    }
  }

  lemma {:induction false} CollapseRun(sp: string, t: string, inRun: char -> bool)
    requires sp != [] && AllIn(sp, inRun)
    requires t != [] && !inRun(t[0])
    ensures Collapse(sp + t, inRun) == [' '] + Collapse(t, inRun)
    decreases |sp|
  {
    assert (sp + t)[0] == sp[0];
    assert (sp + t)[1..] == sp[1..] + t;
    if |sp| > 1 {
      assert (sp + t)[1] == sp[1];
      CollapseRun(sp[1..], t, inRun);
    } else {
      assert (sp + t)[1] == t[0];
    }
  }

  lemma {:induction false} LeadingWordIsWord(w: string, x: string, inRun: char -> bool)
    requires NoneIn(w, inRun)
    requires x == [] || inRun(x[0])
    ensures LeadingWord(w + x, inRun) == w
    decreases |w|
  {
    if w != [] {
      assert (w + x)[0] == w[0];
      assert (w + x)[1..] == w[1..] + x;
      LeadingWordIsWord(w[1..], x, inRun);
    } else if x != [] {
      assert (w + x)[0] == x[0];
    }
  }

  /** A word, a separator run, then the rest: one word and one space in front of the rest. */
  lemma CollapseWordRunRest(w: string, sp: string, t: string, inRun: char -> bool)
    requires NoneIn(w, inRun)
    requires sp != [] && AllIn(sp, inRun)
    requires t != [] && !inRun(t[0])
    ensures Collapse(w + (sp + t), inRun) == w + [' '] + Collapse(t, inRun)
  {
    CollapseAfterWord(w, sp + t, inRun);
    CollapseRun(sp, t, inRun);
    assert w + ([' '] + Collapse(t, inRun)) == w + [' '] + Collapse(t, inRun);
  }

  /** A word, a separator run, then the rest: the word comes first, then the words of the rest. */
  lemma WordsWordRunRest(w: string, sp: string, t: string, inRun: char -> bool)
    requires w != [] && NoneIn(w, inRun)
    requires sp != [] && AllIn(sp, inRun)
    ensures Words(w + (sp + t), inRun) == [w] + Words(t, inRun)
  {
    var u := w + (sp + t);
    assert (sp + t)[0] == sp[0];
    LeadingWordIsWord(w, sp + t, inRun);
    assert u[0] == w[0];
    assert u[|w|..] == sp + t;
    WordsSkipRun(sp, t, inRun);
  }

  /** On a string without separators at either edge, collapsing separator runs joins its words with single spaces. */
  lemma {:induction false} CollapseIsJoin(t: string, inRun: char -> bool)
    requires t == [] || (!inRun(t[0]) && !inRun(t[|t| - 1]))
    ensures Collapse(t, inRun) == JoinWords(Words(t, inRun))
    decreases |t|
  {
    if t != [] {
      var w := LeadingWord(t, inRun);
      var rest := t[|w|..];
      SplitAt(t, |w|);
      if rest == [] {
        CollapseAfterWord(w, [], inRun);
        LeadingWordIsWord(w, [], inRun);
        assert w + [] == w;
        assert Words(t, inRun) == [w] + Words([], inRun);
      } else {
        var t' := SkipRun(rest, inRun);
        var sp := rest[..|rest| - |t'|];
        SplitAt(rest, |rest| - |t'|);
        assert t' != [] && t'[|t'| - 1] == t[|t| - 1];
        CollapseWordRunRest(w, sp, t', inRun);
        WordsWordRunRest(w, sp, t', inRun);
        CollapseIsJoin(t', inRun);
        var ws := Words(t', inRun);
        assert ws != [] by {
          assert ws == [LeadingWord(t', inRun)] + Words(t'[|LeadingWord(t', inRun)|..], inRun);
        }
        assert ([w] + ws)[0] == w && ([w] + ws)[1..] == ws;
        assert JoinWords([w] + ws) == w + [' '] + JoinWords(ws);
      }
    }
  }

  lemma SplitAt(x: string, i: nat)
    requires i <= |x|
    ensures x == x[..i] + x[i..]
  {
  }

  /** Whitespace at the edges in the sense of `trim` is a run of the whitespace class. */
  lemma AllSpaceIsRun(x: string)
    requires AllSpace(x)
    ensures AllIn(x, IsSpace)
  {
  }

  /**
   * NormalizeName keeps exactly the words of the name, in order, separated
   * by single spaces: no whitespace at either edge, and every internal
   * whitespace run becomes one space.
   */
  lemma NormalizeNameIsJoinedWords(name: string)
    ensures NormalizeName(name) == JoinWords(Words(name, IsSpace))
  {
    var s := TrimStart(name);
    var t := Trim(name);
    CollapseIsJoin(t, IsSpace);
    assert t == TrimEnd(s);
    var lead := name[..|name| - |s|];
    var tail := s[|t|..];
    SplitAt(name, |name| - |s|);
    SplitAt(s, |t|);
    AllSpaceIsRun(lead);
    AllSpaceIsRun(tail);
    WordsSkipRun(lead, s, IsSpace);
    WordsIgnoreTrailingRun(t, tail, IsSpace);
  }

  lemma {:induction false} LeadingWordOfJoin(w: string, x: string, inRun: char -> bool)
    requires NoneIn(w, inRun) && inRun(' ')
    ensures LeadingWord(w + [' '] + x, inRun) == w
    ensures LeadingWord(w, inRun) == w
    decreases |w|
  {
    if w != [] {
      assert (w + [' '] + x)[0] == w[0];
      assert (w + [' '] + x)[1..] == w[1..] + [' '] + x;
      LeadingWordOfJoin(w[1..], x, inRun);
    } else {
      assert (w + [' '] + x)[0] == ' ';
    }
  }

  /** Splitting words joined by single spaces gives the words back, when a space is a separator. */
  lemma {:induction false} WordsOfJoin(ws: seq<string>, inRun: char -> bool)
    requires inRun(' ')
    requires forall i :: 0 <= i < |ws| ==> ws[i] != [] && NoneIn(ws[i], inRun)
    ensures Words(JoinWords(ws), inRun) == ws
    decreases |ws|
  {
    if |ws| == 1 {
      var w := ws[0];
      LeadingWordOfJoin(w, [], inRun);
      assert w[|w|..] == [];
    } else if |ws| > 1 {
      var w := ws[0];
      var j := JoinWords(ws[1..]);
      var u := w + [' '] + j;
      assert JoinWords(ws) == u;
      LeadingWordOfJoin(w, j, inRun);
      assert u[0] == w[0];
      assert Words(u, inRun) == [w] + Words(u[|w|..], inRun);
      assert u[|w|..] == [' '] + j;
      assert ([' '] + j)[0] == ' ' && ([' '] + j)[1..] == j;
      assert Words([' '] + j, inRun) == Words(j, inRun);
      WordsOfJoin(ws[1..], inRun);
      assert ws == [w] + ws[1..];
    }
  }

  /** Every word is non-empty and holds no separator. */
  lemma {:induction false} WordsAreWords(s: string, inRun: char -> bool)
    ensures forall i :: 0 <= i < |Words(s, inRun)| ==> Words(s, inRun)[i] != [] && NoneIn(Words(s, inRun)[i], inRun)
    decreases |s|
  {
    if s != [] {
      if inRun(s[0]) {
        WordsAreWords(s[1..], inRun);
      } else {
        var w := LeadingWord(s, inRun);
        WordsAreWords(s[|w|..], inRun);
        assert Words(s, inRun) == [w] + Words(s[|w|..], inRun);
      }
    }
  }

  /** Normalizing a normalized name changes nothing. */
  lemma NormalizeNameIdempotent(name: string)
    ensures NormalizeName(NormalizeName(name)) == NormalizeName(name)
  {
    var n := NormalizeName(name);
    NormalizeNameIsJoinedWords(name);
    NormalizeNameIsJoinedWords(n);
    WordsAreWords(name, IsSpace);
    WordsOfJoin(Words(name, IsSpace), IsSpace);
  }

  /** A name with a non-whitespace character normalizes to a non-empty name. */
  lemma NormalizeNameNonEmpty(name: string, k: nat)
    requires k < |name| && !IsSpace(name[k])
    ensures NormalizeName(name) != []
  {
    var s := TrimStart(name);
    var t := TrimEnd(s);
    assert t != [];
  }
}
