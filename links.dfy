/**
 * `content.match(linkRegex)` from src/index.js: a link destination (a run of
 * non-space characters, or `<...>`) at the start of a line, optionally
 * followed by one space and a title in double quotes, single quotes or
 * parentheses, and then the end of that line. The search is written out as
 * the backtracking order of the expression: line starts from the left, the
 * shortest `<...>` first, the longest title first.
 */
module Links {
  import opened Options
  import opened Text
  import opened Scanner

  /** Capture 1 and capture 2 without its delimiters (`.slice(1, -1)`). */
  datatype Link = Link(href: string, title: Option<string>)

  /**
   * The first index at or after `k` holding a `special` character that is not
   * escaped by a backslash inside the title body starting at `lo`.
   */
  function FirstUnescaped(s: string, lo: nat, k: nat, special: char -> bool): (r: nat)
    requires lo <= k <= |s|
    ensures k <= r <= |s|
    ensures r < |s| ==> special(s[r]) && !(r > lo && s[r - 1] == '\\')
    ensures forall m :: k <= m < r && special(s[m]) ==> m > lo && s[m - 1] == '\\'
    decreases |s| - k
  {
    if k == |s| then k
    else if special(s[k]) && !(k > lo && s[k - 1] == '\\') then k
    else FirstUnescaped(s, lo, k + 1, special)
  }

  /** The largest `q` in `[lo, hi]` where `close` stands right before the end of a line. */
  function LastClosing(s: string, lo: nat, hi: int, close: char): (r: Option<nat>)
    ensures r.Some? ==> lo <= r.value <= hi && r.value < |s| && s[r.value] == close && AtLineEnd(s, r.value + 1)
    ensures r.Some? ==> forall q :: r.value < q <= hi && q < |s| ==> !(s[q] == close && AtLineEnd(s, q + 1))
    decreases if hi < lo then 0 else hi - lo + 1
  {
    if hi < lo then None
    else if hi < |s| && s[hi] == close && AtLineEnd(s, hi + 1) then Some(hi)
    else LastClosing(s, lo, hi - 1, close)
  }

  /** A character that opens a title. */
  predicate IsOpener(o: char) {
    o == '"' || o == '\'' || o == '('
  }

  /** The character that closes a title opened by `o`. */
  function Closer(o: char): char {
    if o == '(' then ')' else o
  }

  /** The index of the closing delimiter of the title opening at `t`. */
  function TitleEnd(s: string, t: nat): (r: Option<nat>)
    requires t < |s|
    ensures r.Some? ==> t < r.value < |s|
    ensures r.Some? ==> IsOpener(s[t]) && s[r.value] == Closer(s[t]) && AtLineEnd(s, r.value + 1)
  {
    var o := s[t];
    if o == '"' || o == '\'' then
      LastClosing(s, t + 1, FirstUnescaped(s, t + 1, t + 1, ch => ch == o), o)
    else if o == '(' then
      LastClosing(s, t + 1, FirstUnescaped(s, t + 1, t + 1, ch => ch == '(' || ch == ')'), ')')
    else None
  }

  /** After the destination ends at `h`: `Some(title)` when the rest of the line fits. */
  function RestAt(s: string, h: nat): (r: Option<Option<string>>)
    requires h <= |s|
  {
    if h + 1 < |s| && s[h] == ' ' then
      match TitleEnd(s, h + 1)
      case Some(q) => Some(Some(s[h + 2..q]))
      case None => None
    else if AtLineEnd(s, h) then Some(None)
    else None
  }

  /**
   * What a rest of the line read at `h` is: with no title the line ends at
   * `h`; with a title, one space, an opening delimiter, the title, the
   * matching closer, and then the line ends.
   */
  predicate RestFits(s: string, h: nat, t: Option<string>)
    requires h <= |s|
  {
    match t
    case None => AtLineEnd(s, h)
    case Some(title) =>
      var q := h + 2 + |title|;
      q < |s| && s[h] == ' ' && IsOpener(s[h + 1]) && s[h + 2..q] == title &&
      s[q] == Closer(s[h + 1]) && AtLineEnd(s, q + 1)
  }

  lemma RestSound(s: string, h: nat, t: Option<string>)
    requires h <= |s| && RestAt(s, h) == Some(t)
    ensures RestFits(s, h, t)
  {
    if h + 1 < |s| && s[h] == ' ' {
      var q := TitleEnd(s, h + 1).value;
      assert t == Some(s[h + 2..q]);
    }
  }

  /** Where the search for the `>` of `<.*?>` stops: at a `>` or at the end of the line. */
  predicate EndsAngle(ch: char) {
    ch == '>' || IsLineBreak(ch)
  }

  /** `<.*?>`: try each `>` of the line in turn. */
  function AngleFrom(s: string, i: nat, g: nat): (r: Option<Link>)
    requires i < g <= |s| && s[i] == '<'
    ensures r.Some? ==> |r.value.href| >= 2 && r.value.href[0] == '<'
    decreases |s| - g
  {
    var k := FirstWhere(s, g, EndsAngle);
    if k < |s| && s[k] == '>' then
      match RestAt(s, k + 1)
      case Some(t) => Some(Link(s[i..k + 1], t))
      case None => AngleFrom(s, i, k + 1)
    else None
  }

  /** The expression anchored at `i`. */
  function LinkAt(s: string, i: nat): (r: Option<Link>)
    requires i <= |s|
    ensures r.Some? ==> r.value.href != [] && (r.value.href[0] == '<' || NoSpace(r.value.href))
  {
    if i == |s| then None
    else if s[i] == '<' then AngleFrom(s, i, i + 1)
    else if IsSpace(s[i]) then None
    else
      var h := FirstWhere(s, i, IsSpace);
      match RestAt(s, h)
      case Some(t) => Some(Link(s[i..h], t))
      case None => None
  }

  function LinkFrom(s: string, i: nat): (r: Option<Link>)
    requires i <= |s|
    ensures r.Some? ==> r.value.href != [] && (r.value.href[0] == '<' || NoSpace(r.value.href))
    decreases |s| - i
  {
    var here := if AtLineStart(s, i) then LinkAt(s, i) else None;
    if here.Some? then here
    else if i < |s| then LinkFrom(s, i + 1)
    else None
  }

  /** `content.match(linkRegex)` */
  function LinkMatch(s: string): (r: Option<Link>)
    ensures r.Some? ==> r.value.href != [] && (r.value.href[0] == '<' || NoSpace(r.value.href))
  {
    LinkFrom(s, 0)
  }

  /** A match found by AngleFrom ends just after a `>` of the line, at `e`, where the rest of the line fits. */
  lemma {:induction false} AngleFound(s: string, i: nat, g: nat, l: Link) returns (e: nat)
    requires i < g <= |s| && s[i] == '<' && AngleFrom(s, i, g) == Some(l)
    ensures g < e <= |s| && s[e - 1] == '>' && RestAt(s, e).Some?
    ensures l == Link(s[i..e], RestAt(s, e).value)
    decreases |s| - g
  {
    var next := AngleStep(s, i, g);
    if RestAt(s, next).Some? {
      return next;
    }
    e := AngleFound(s, i, next, l);
  }

  /** One try of AngleFrom that matches: just after the `>` it stops at, and what it returns from there. */
  lemma AngleStep(s: string, i: nat, g: nat) returns (e: nat)
    requires i < g <= |s| && s[i] == '<' && AngleFrom(s, i, g).Some?
    ensures g < e <= |s| && s[e - 1] == '>'
    ensures RestAt(s, e).Some? ==> AngleFrom(s, i, g) == Some(Link(s[i..e], RestAt(s, e).value))
    ensures RestAt(s, e).None? ==> AngleFrom(s, i, g) == AngleFrom(s, i, e)
  {
    var k := FirstWhere(s, g, EndsAngle);
    e := k + 1;
  }

  /**
   * A match anchored at `i` reads its destination from the text at `i`, up
   * to `h`: a run of non-space characters that the end of the text or a
   * space ends, or `<` up to a `>`; then a rest that fits.
   */
  lemma LinkAtSound(s: string, i: nat, l: Link) returns (h: nat)
    requires i <= |s| && LinkAt(s, i) == Some(l)
    ensures h == i + |l.href| <= |s| && s[i..h] == l.href
    ensures l.href[0] != '<' ==> h == |s| || IsSpace(s[h])
    ensures l.href[0] == '<' ==> s[h - 1] == '>'
    ensures RestFits(s, h, l.title)
  {
    if s[i] == '<' {
      h := AngleHrefSound(s, i, l);
    } else {
      h := PlainHrefSound(s, i, l);
    }
  }

  /** LinkAtSound for a destination in angle brackets. */
  lemma AngleHrefSound(s: string, i: nat, l: Link) returns (h: nat)
    requires i < |s| && s[i] == '<' && AngleFrom(s, i, i + 1) == Some(l)
    ensures h == i + |l.href| <= |s| && s[i..h] == l.href
    ensures l.href[0] == '<' && s[h - 1] == '>'
    ensures RestFits(s, h, l.title)
  {
    h := AngleFound(s, i, i + 1, l);
    RestSound(s, h, l.title);
  }

  /** LinkAtSound for a destination that is a run of non-space characters. */
  lemma PlainHrefSound(s: string, i: nat, l: Link) returns (h: nat)
    requires i < |s| && s[i] != '<' && !IsSpace(s[i])
    requires RestAt(s, FirstWhere(s, i, IsSpace)) == Some(l.title)
    requires l.href == s[i..FirstWhere(s, i, IsSpace)]
    ensures h == i + |l.href| <= |s| && s[i..h] == l.href
    ensures l.href[0] != '<' && (h == |s| || IsSpace(s[h]))
    ensures RestFits(s, h, l.title)
  {
    h := FirstWhere(s, i, IsSpace);
    RestSound(s, h, l.title);
  }

  /** LinkFrom returns the match at the first line start from `i` where one is anchored. */
  lemma {:induction false} LinkFromSound(s: string, i: nat, l: Link) returns (j: nat)
    requires i <= |s| && LinkFrom(s, i) == Some(l)
    ensures i <= j <= |s| && AtLineStart(s, j) && LinkAt(s, j) == Some(l)
    ensures forall m :: i <= m < j && AtLineStart(s, m) ==> LinkAt(s, m).None?
    decreases |s| - i
  {
    if AtLineStart(s, i) && LinkAt(s, i).Some? {
      return i;
    }
    assert LinkFrom(s, i + 1) == Some(l);
    j := LinkFromSound(s, i + 1, l);
  }

  /**
   * `content.match(linkRegex)` is read from the content: the destination
   * stands at the start of a line (the first line where the expression
   * matches) and runs from `j` to `h`, followed either by the end of that
   * line, or by one space and a delimited title that closes at the end of
   * that line.
   */
  lemma LinkMatchSound(s: string, l: Link) returns (j: nat, h: nat)
    requires LinkMatch(s) == Some(l)
    ensures j <= h == j + |l.href| <= |s| && AtLineStart(s, j) && s[j..h] == l.href
    ensures l.href[0] != '<' ==> h == |s| || IsSpace(s[h])
    ensures l.href[0] == '<' ==> s[h - 1] == '>'
    ensures RestFits(s, h, l.title)
    ensures forall m :: 0 <= m < j && AtLineStart(s, m) ==> LinkAt(s, m).None?
  {
    j := LinkFromSound(s, 0, l);
    h := LinkAtSound(s, j, l);
  }

  /** A destination that can stand alone in the first alternative. */
  predicate PlainHref(href: string) {
    href != [] && href[0] != '<' && NoSpace(href)
  }

  /** A destination at the very start of the text, then a rest that fits, is the match. */
  lemma PlainHrefMatch(s: string, h: nat, t: Option<string>)
    requires 0 < h <= |s| && s[0] != '<'
    requires forall k :: 0 <= k < h ==> !IsSpace(s[k])
    requires h < |s| ==> IsSpace(s[h])
    requires RestAt(s, h) == Some(t)
    ensures LinkMatch(s) == Some(Link(s[..h], t))
  {
    FirstWhereIs(s, 0, IsSpace, h);
    assert LinkAt(s, 0) == Some(Link(s[..h], t));
  }

  /** A bare destination is recognised with no title. */
  lemma LinkBare(href: string)
    requires PlainHref(href)
    ensures LinkMatch(href) == Some(Link(href, None))
  {
    assert href[..|href|] == href;
    PlainHrefMatch(href, |href|, None);
  }

  /** A double-quoted title without inner quotes that runs to the end of the text is taken whole. */
  lemma QuotedTitleRest(s: string, h: nat)
    requires h + 2 < |s| && s[h] == ' ' && s[h + 1] == '"' && s[|s| - 1] == '"'
    requires forall m :: h + 2 <= m < |s| - 1 ==> s[m] != '"'
    ensures RestAt(s, h) == Some(Some(s[h + 2..|s| - 1]))
  {
    var u := FirstUnescaped(s, h + 2, h + 2, ch => ch == '"');
    assert u >= |s| - 1;
    assert LastClosing(s, h + 2, u, '"') == Some(|s| - 1) by {
      if u == |s| {
        assert !(u < |s|);
      }
    }
    assert TitleEnd(s, h + 1) == Some(|s| - 1);
  }

  /** `href "title"` is recognised as that destination and that title. */
  lemma LinkWithTitle(href: string, title: string)
    requires PlainHref(href)
    requires forall k :: 0 <= k < |title| ==> title[k] != '"'
    ensures LinkMatch(href + " \"" + title + "\"") == Some(Link(href, Some(title)))
  {
    var s := href + " \"" + title + "\"";
    var h := |href|;
    assert s[..h] == href;
    assert s[h] == ' ' && s[h + 1] == '"' && s[|s| - 1] == '"';
    assert s[h + 2..|s| - 1] == title;
    QuotedTitleRest(s, h);
    assert forall k :: 0 <= k < h ==> s[k] == href[k];
    PlainHrefMatch(s, h, Some(title));
  }
}
