/**
 * The tokenizer in the `preprocess` hook of src/index.js. The combined
 * regular expression (code regions to skip, then `([!$]?)[label]` with an
 * optional `: block` or `(inline)` tail) is written out as explicit scanning
 * functions over the page text; `Tokenize` is the cursor loop that pushes
 * tokens, and `ParenScan` the depth scan that finds where an inline
 * definition's content really ends.
 */
module Scanner {
  import opened Options
  import opened Text

  /** The `type` of a queue item. */
  datatype Kind = TextKind | DefKind | CallKind | ResolvedKind

  /** A queue item `{type, prefix, varName, content}`. */
  datatype Token = Token(kind: Kind, prefix: string, name: string, content: string)

  function TextToken(s: string): Token {
    Token(TextKind, "", "", s)
  }

  /** `varsQueue.map(item => item.content).join('')` */
  function Join(ts: seq<Token>): string {
    if ts == [] then "" else Join(ts[..|ts| - 1]) + ts[|ts| - 1].content
  }

  // ---------------------------------------------------------------------
  // Scanning helpers

  /** Multiline `^`. */
  predicate AtLineStart(s: string, i: nat)
    requires i <= |s|
  {
    i == 0 || IsLineBreak(s[i - 1])
  }

  /** Multiline `$`. */
  predicate AtLineEnd(s: string, i: nat)
    requires i <= |s|
  {
    i == |s| || IsLineBreak(s[i])
  }

  /** The first index at or after `i` whose character satisfies `p`, or `|s|`. */
  function FirstWhere(s: string, i: nat, p: char -> bool): (r: nat)
    requires i <= |s|
    ensures i <= r <= |s|
    ensures r < |s| ==> p(s[r])
    ensures forall k :: i <= k < r ==> !p(s[k])
    decreases |s| - i
  {
    if i == |s| || p(s[i]) then i else FirstWhere(s, i + 1, p)
  }

  /** The first position at or after `i` that satisfies `p` is the one the search stops at. */
  lemma {:induction false} FirstWhereIs(s: string, i: nat, p: char -> bool, h: nat)
    requires i <= h <= |s|
    requires forall k :: i <= k < h ==> !p(s[k])
    requires h < |s| ==> p(s[h])
    ensures FirstWhere(s, i, p) == h
    decreases h - i
  {
    if i < h {
      FirstWhereIs(s, i + 1, p, h);
    }
  }

  /** The length of the run of `c` starting at `i`. */
  function RunOf(s: string, i: nat, c: char): (r: nat)
    requires i <= |s|
    ensures i + r <= |s|
    ensures forall k :: i <= k < i + r ==> s[k] == c
    ensures i + r < |s| ==> s[i + r] != c
    decreases |s| - i
  {
    if i < |s| && s[i] == c then 1 + RunOf(s, i + 1, c) else 0
  }

  /** Where `[^\n]*` starting at `i` stops. */
  function LineEnd(s: string, i: nat): (r: nat)
    requires i <= |s|
    ensures i <= r <= |s| && (r < |s| ==> s[r] == '\n')
  {
    FirstWhere(s, i, c => c == '\n')
  }

  /** Where `.*` starting at `i` stops. */
  function BreakEnd(s: string, i: nat): (r: nat)
    requires i <= |s|
    ensures i <= r <= |s| && AtLineEnd(s, r)
  {
    FirstWhere(s, i, IsLineBreak)
  }

  // ---------------------------------------------------------------------
  // codeBlockSkip, first alternative: indented code `^(?: {4}[^\n]+(?:\n(?: *(?:\n|$))*)?)+`

  predicate IndentedLineAt(s: string, j: nat)
    requires j <= |s|
  {
    RunOf(s, j, ' ') >= 4 && j + 4 < |s| && s[j + 4] != '\n'
  }

  /** `(?: *(?:\n|$))*` from `q`: blank lines, and trailing spaces before a line end. */
  function BlankLinesFrom(s: string, q: nat): (r: nat)
    requires q <= |s|
    ensures q <= r <= |s|
    decreases |s| - q
  {
    var q' := q + RunOf(s, q, ' ');
    if q' < |s| && s[q'] == '\n' then BlankLinesFrom(s, q' + 1)
    else if q' > q && AtLineEnd(s, q') then q'
    else q
  }

  function IndentedFrom(s: string, j: nat): (r: nat)
    requires j <= |s| && IndentedLineAt(s, j)
    ensures j < r <= |s|
    decreases |s| - j
  {
    var k := LineEnd(s, j + 4);
    var e := if k < |s| then BlankLinesFrom(s, k + 1) else k;
    if IndentedLineAt(s, e) then IndentedFrom(s, e) else e
  }

  function IndentedAt(s: string, i: nat): (r: Option<nat>)
    requires i <= |s|
    ensures r.Some? ==> i < r.value <= |s|
  {
    if AtLineStart(s, i) && IndentedLineAt(s, i) then Some(IndentedFrom(s, i)) else None
  }

  // ---------------------------------------------------------------------
  // codeBlockSkip, second alternative: a fenced block whose closing fence
  // (up to three spaces, the opening fence, more fence characters, spaces)
  // is on a later line.

  function Min(a: int, b: int): int {
    if a < b then a else b
  }

  /** ` {0,3}\2[~`]* *(?=\n|$)` at `p`, where `\2` is `fence` copies of `c`. */
  function ClosingAt(s: string, p: nat, c: char, fence: nat): (r: Option<nat>)
    requires p <= |s|
    ensures r.Some? ==> p < r.value <= |s|
  {
    var f := p + Min(RunOf(s, p, ' '), 3);
    if fence >= 1 && RunOf(s, f, c) >= fence then
      var g := FirstWhere(s, f + fence, ch => ch != '~' && ch != '`');
      var h := g + RunOf(s, g, ' ');
      if AtLineEnd(s, h) then Some(h) else None
    else None
  }

  /** The lazy search for the closing fence: `p`, then the start of every later line. */
  function FindClosing(s: string, p: nat, c: char, fence: nat): (r: Option<nat>)
    requires p <= |s|
    ensures r.Some? ==> p < r.value <= |s|
    decreases |s| - p
  {
    match ClosingAt(s, p, c, fence)
    case Some(e) => Some(e)
    case None =>
      var q := LineEnd(s, p);
      if q < |s| then FindClosing(s, q + 1, c, fence) else None
  }

  /** `~{3,}` backtracks: the longest opening length that finds a closing fence wins. */
  function TildeFence(s: string, p0: nat, fence: nat): (r: Option<nat>)
    requires p0 <= |s|
    ensures r.Some? ==> p0 < r.value <= |s|
    decreases fence
  {
    if fence < 3 then None
    else match FindClosing(s, p0, '~', fence)
      case Some(e) => Some(e)
      case None => TildeFence(s, p0, fence - 1)
  }

  function FencedAt(s: string, i: nat): (r: Option<nat>)
    requires i <= |s|
    ensures r.Some? ==> i < r.value <= |s|
  {
    var sp := RunOf(s, i, ' ');
    var f := i + sp;
    if !AtLineStart(s, i) || sp > 3 || f == |s| then None
    else
      var fence := RunOf(s, f, s[f]);
      var o := LineEnd(s, f + fence);
      var p0 := if o < |s| then o + 1 else o;
      if s[f] == '`' && fence >= 3 then
        // (?=[^`\n]*(?:\n|$)): no backtick before the end of the line
        var m := FirstWhere(s, f + fence, ch => ch == '`' || IsLineBreak(ch));
        if m == |s| || s[m] != '`' then FindClosing(s, p0, '`', fence) else None
      else if s[f] == '~' then TildeFence(s, p0, fence)
      else None
  }

  // ---------------------------------------------------------------------
  // codeBlockSkip, third alternative: inline code `` `[^`]*?` ``

  function InlineCodeAt(s: string, i: nat): (r: Option<nat>)
    requires i <= |s|
    ensures r.Some? ==> i < r.value <= |s|
  {
    if i < |s| && s[i] == '`' then
      var k := FirstWhere(s, i + 1, c => c == '`');
      if k < |s| then Some(k + 1) else None
    else None
  }

  /** `codeBlockSkip` at `i`: the end of the region to copy verbatim. */
  function CodeSkipAt(s: string, i: nat): (r: Option<nat>)
    requires i <= |s|
    ensures r.Some? ==> i < r.value <= |s|
  {
    match IndentedAt(s, i)
    case Some(e) => Some(e)
    case None =>
      match FencedAt(s, i)
      case Some(e) => Some(e)
      case None => InlineCodeAt(s, i)
  }

  // ---------------------------------------------------------------------
  // Variable labels `([!$]?)\[((?!\s*\])(?:\\.|[^\[\]\\])+)\]`

  /**
   * From just after `[`: the index of the closing `]`. A backslash takes the
   * next character (not a line break) with it; a bare `[` fails the match.
   */
  function LabelClose(s: string, j: nat): (r: Option<nat>)
    requires j <= |s|
    ensures r.Some? ==> j <= r.value < |s| && s[r.value] == ']'
    ensures r.Some? ==> forall m :: j <= m < r.value && (s[m] == '[' || s[m] == ']') ==> m > j && s[m - 1] == '\\'
    decreases |s| - j
  {
    if j >= |s| then None
    else if s[j] == '\\' then
      if j + 1 < |s| && !IsLineBreak(s[j + 1]) then
        match LabelClose(s, j + 2)
        case Some(k) => Some(k)
        case None => None
      else None
    else if s[j] == '[' then None
    else if s[j] == ']' then Some(j)
    else LabelClose(s, j + 1)
  }

  predicate HasNonSpace(s: string) {
    exists k :: 0 <= k < |s| && !IsSpace(s[k])
  }

  predicate IsPrefix(p: string) {
    p == "" || p == "!" || p == "$"
  }

  /** A matched label: its prefix, its raw text and the index just after `]`. */
  datatype Label = Label(prefix: string, raw: string, end: nat)

  function LabelAt(s: string, i: nat): (r: Option<Label>)
    requires i <= |s|
    ensures r.Some? ==> i < r.value.end <= |s| && IsPrefix(r.value.prefix) && HasNonSpace(r.value.raw)
    ensures r.Some? ==> s[i] == '[' || (i + 1 < |s| && s[i + 1] == '[')
    ensures r.Some? ==> forall m :: 0 <= m < |r.value.raw| && (r.value.raw[m] == '[' || r.value.raw[m] == ']') ==>
      m > 0 && r.value.raw[m - 1] == '\\'
  {
    var b := if i < |s| && (s[i] == '!' || s[i] == '$') then i + 1 else i;
    if b < |s| && s[b] == '[' then
      match LabelClose(s, b + 1)
      case Some(k) =>
        var raw := s[b + 1..k];
        if HasNonSpace(raw) then
          assert forall m :: 0 <= m < |raw| ==> raw[m] == s[b + 1 + m];
          Some(Label(s[i..b], raw, k + 1))
        else None
      case None => None
    else None
  }

  // ---------------------------------------------------------------------
  // The optional tail: `:((?:\n? *[^\s].*)+)` or `\(([^\n]+)\)`

  /** One `\n? *[^\s].*` iteration from `q`. */
  function BlockLine(s: string, q: nat): (r: Option<nat>)
    requires q <= |s|
    ensures r.Some? ==> q < r.value <= |s|
  {
    var q1 := if q < |s| && s[q] == '\n' then q + 1 else q;
    var q2 := q1 + RunOf(s, q1, ' ');
    if q2 < |s| && !IsSpace(s[q2]) then Some(BreakEnd(s, q2 + 1)) else None
  }

  function BlockLines(s: string, q: nat): (r: nat)
    requires q <= |s|
    ensures q <= r <= |s|
    decreases |s| - q
  {
    match BlockLine(s, q)
    case Some(e) => BlockLines(s, e)
    case None => q
  }

  /** The last `)` at an index in `[lo, hi)`. */
  function LastCloseParen(s: string, lo: nat, hi: nat): (r: Option<nat>)
    requires hi <= |s|
    ensures r.Some? ==> lo <= r.value < hi && s[r.value] == ')'
    decreases hi
  {
    if hi <= lo then None
    else if s[hi - 1] == ')' then Some(hi - 1)
    else LastCloseParen(s, lo, hi - 1)
  }

  datatype Tail = NoTail | BlockTail(body: string, end: nat) | InlineTail(body: string, end: nat)

  /** The tail after the `]` that ends at `e`. */
  function TailAt(s: string, e: nat): (r: Tail)
    requires e <= |s|
    ensures r.BlockTail? ==> e < r.end <= |s|
    ensures r.InlineTail? ==> |r.body| >= 1 && e + |r.body| + 2 == r.end <= |s|
  {
    if e < |s| && s[e] == ':' then
      match BlockLine(s, e + 1)
      case Some(r1) =>
        var stop := BlockLines(s, r1);
        BlockTail(s[e + 1..stop], stop)
      case None => NoTail
    else if e < |s| && s[e] == '(' then
      match LastCloseParen(s, e + 2, LineEnd(s, e + 1))
      case Some(q) => InlineTail(s[e + 1..q], q + 1)
      case None => NoTail
    else NoTail
  }

  // ---------------------------------------------------------------------
  // The combined expression and its leftmost match

  datatype Match = CodeMatch(start: nat, end: nat) | VarMatch(start: nat, lab: Label, tail: Tail)

  function MatchAt(s: string, i: nat): (r: Option<Match>)
    requires i <= |s|
    ensures r.Some? ==> r.value.start == i
    ensures r.Some? && r.value.CodeMatch? ==> i < r.value.end <= |s|
    ensures r.Some? && r.value.VarMatch? ==> i < r.value.lab.end <= |s| && s[i..i + 1] != []
    ensures r.Some? && r.value.VarMatch? ==> s[i] == '[' || (i + 1 < |s| && s[i + 1] == '[')
  {
    match CodeSkipAt(s, i)
    case Some(e) => Some(CodeMatch(i, e))
    case None =>
      match LabelAt(s, i)
      case Some(l) => Some(VarMatch(i, l, TailAt(s, l.end)))
      case None => None
  }

  /** `combinedRegex.exec(src)` with `lastIndex == c`. */
  function NextMatch(s: string, c: nat): (r: Option<Match>)
    requires c <= |s| + 1
    ensures r.Some? ==> c <= r.value.start < |s| && MatchAt(s, r.value.start) == r
    decreases |s| + 1 - c
  {
    if c >= |s| then None
    else match MatchAt(s, c)
      case Some(m) => Some(m)
      case None => NextMatch(s, c + 1)
  }

  /** No match starts between the cursor and the match found, and none at all when nothing is found. */
  lemma {:induction false} NextMatchLeftmost(s: string, c: nat, p: nat)
    requires c <= |s| + 1 && c <= p < |s|
    requires NextMatch(s, c).Some? ==> p < NextMatch(s, c).value.start
    ensures MatchAt(s, p).None?
    decreases |s| + 1 - c
  {
    if MatchAt(s, c).None? && c < p {
      NextMatchLeftmost(s, c + 1, p);
    }
  }

  // ---------------------------------------------------------------------
  // The inline-definition depth scan

  /**
   * The index at which the scan of `content` from `i` at depth `level` stops:
   * a backslash skips the next character, `(` and `)` move the depth, and the
   * first `)` that takes the depth below zero stops the scan.
   */
  function ParenStop(content: string, i: nat, level: int): (r: nat)
    requires i <= |content| + 1
    requires i == |content| + 1 ==> |content| >= 1 && content[|content| - 1] == '\\'
    ensures i <= r <= |content| + 1
    ensures r < |content| ==> content[r] == ')'
    ensures r == |content| + 1 ==> |content| >= 1 && content[|content| - 1] == '\\'
    decreases |content| + 1 - i
  {
    if i >= |content| then i
    else if content[i] == '\\' then ParenStop(content, i + 2, level)
    else if content[i] == '(' then ParenStop(content, i + 1, level + 1)
    else if content[i] == ')' then (if level - 1 < 0 then i else ParenStop(content, i + 1, level - 1))
    else ParenStop(content, i + 1, level)
  }

  /** The `for` loop over `content` that looks for the matching `)`. */
  method ParenScan(content: string) returns (i: nat)
    ensures i == ParenStop(content, 0, 0)
  {
    var level := 0;
    i := 0;
    while i < |content|
      invariant i <= |content| + 1
      invariant i == |content| + 1 ==> |content| >= 1 && content[|content| - 1] == '\\'
      invariant ParenStop(content, i, level) == ParenStop(content, 0, 0)
      decreases |content| + 1 - i
    {
      if content[i] == '\\' {
        i := i + 1;
      } else if content[i] == '(' {
        level := level + 1;
      } else if content[i] == ')' {
        level := level - 1;
        if level < 0 {
          break;
        }
      }
      i := i + 1;
    }
  }

  // ---------------------------------------------------------------------
  // Tokens

  /** The content an inline definition keeps: up to the stop, trimmed and collapsed. */
  function InlineContent(body: string): string {
    var i := ParenStop(body, 0, 0);
    NormalizeName(body[..Min(i, |body|)])
  }

  /** The tokens one match pushes. */
  function MatchTokens(s: string, m: Match): seq<Token> {
    match m
    case CodeMatch(a, e) =>
      if a <= e <= |s| then [TextToken(s[a..e])] else []
    case VarMatch(a, l, tail) =>
      var name := NormalizeName(l.raw);
      var call := Token(CallKind, l.prefix, name, l.prefix + "[" + name + "]");
      match tail
      case BlockTail(body, _) =>
        if a == 0 || (a <= |s| && s[a - 1] == '\n') then [Token(DefKind, l.prefix, name, NormalizeBlock(body))]
        else [call]
      case InlineTail(body, _) =>
        [Token(DefKind, l.prefix, name, InlineContent(body)), Token(CallKind, l.prefix, name, "")]
      case NoTail => [call]
  }

  /** `combinedRegex.lastIndex` after the match is handled (rewound for an inline definition). */
  function Resume(m: Match): int {
    match m
    case CodeMatch(_, e) => e
    case VarMatch(_, l, tail) =>
      match tail
      case BlockTail(_, e) => e
      case InlineTail(body, e) => e - (|body| - ParenStop(body, 0, 0))
      case NoTail => l.end
  }

  lemma ResumeBounds(s: string, c: nat)
    requires c <= |s| + 1 && NextMatch(s, c).Some?
    ensures var m := NextMatch(s, c).value; m.start < Resume(m) <= |s| + 1
  {
    var m := NextMatch(s, c).value;
    if m.VarMatch? {
      assert TailAt(s, m.lab.end) == m.tail;
    }
  }

  /** The tokens pushed from cursor `c` to the end of the page. */
  function ScanFrom(s: string, c: nat): seq<Token>
    requires c <= |s| + 1
    decreases |s| + 1 - c
  {
    match NextMatch(s, c)
    case None => if c < |s| then [TextToken(s[c..])] else []
    case Some(m) =>
      ResumeBounds(s, c);
      (if m.start > c then [TextToken(s[c..m.start])] else [])
        + MatchTokens(s, m) + ScanFrom(s, Resume(m) as nat)
  }

  function Tokens(s: string): seq<Token> {
    ScanFrom(s, 0)
  }

  /**
   * An inline definition's content: the depth scan, then the trimmed and
   * collapsed text before the stop, and how far the cursor moves back.
   */
  method InlineScan(body: string) returns (content: string, rewind: int)
    ensures content == InlineContent(body) && rewind == |body| - ParenStop(body, 0, 0)
  {
    var i := ParenScan(body);
    content := NormalizeName(body[..Min(i, |body|)]);
    rewind := |body| - i;
  }

  /** The tokens the loop body pushes for one match, and where it moves the cursor. */
  method Push(src: string, mt: Match) returns (pushed: seq<Token>, next: int)
    requires mt.CodeMatch? ==> mt.start <= mt.end <= |src|
    requires mt.VarMatch? ==> mt.start <= |src|
    ensures pushed == MatchTokens(src, mt)
    ensures next == Resume(mt)
  {
    if mt.CodeMatch? {
      pushed := [TextToken(src[mt.start..mt.end])];
      next := mt.end;
    } else {
      pushed, next := PushLabel(src, mt);
    }
  }

  /** A variable match: a definition, a call, or an inline definition with its call. */
  method PushLabel(src: string, mt: Match) returns (pushed: seq<Token>, next: int)
    requires mt.VarMatch? && mt.start <= |src|
    ensures pushed == MatchTokens(src, mt)
    ensures next == Resume(mt)
  {
    var a, l := mt.start, mt.lab;
    var name := NormalizeName(l.raw);
    var call := Token(CallKind, l.prefix, name, l.prefix + "[" + name + "]");
    match mt.tail {
      case BlockTail(body, e) =>
        if a == 0 || src[a - 1] == '\n' {
          pushed := [Token(DefKind, l.prefix, name, NormalizeBlock(body))];
        } else {
          pushed := [call];
        }
        next := e;
      case InlineTail(body, e) =>
        var content, rewind := InlineScan(body);
        pushed := [Token(DefKind, l.prefix, name, content), Token(CallKind, l.prefix, name, "")];
        next := e - rewind;
      case NoTail =>
        pushed := [call];
        next := l.end;
    }
  }

  lemma ScanUnfold(s: string, c: nat)
    requires c <= |s| + 1 && NextMatch(s, c).Some?
    ensures var m := NextMatch(s, c).value;
      m.start < Resume(m) <= |s| + 1 &&
      ScanFrom(s, c) == (if m.start > c then [TextToken(s[c..m.start])] else []) + MatchTokens(s, m) + ScanFrom(s, Resume(m) as nat)
  {
    ResumeBounds(s, c);
  }

  /** One turn of the scanning loop: the gap and the match's tokens, then the rest from its resume point. */
  lemma ScanStep(s: string, c: nat, gap: seq<Token>, pushed: seq<Token>, next: int)
    requires c <= |s| + 1 && NextMatch(s, c).Some?
    requires var m := NextMatch(s, c).value;
      gap == (if m.start > c then [TextToken(s[c..m.start])] else []) &&
      pushed == MatchTokens(s, m) && next == Resume(m)
    ensures c < next <= |s| + 1
    ensures ScanFrom(s, c) == gap + pushed + ScanFrom(s, next)
  {
    ScanUnfold(s, c);
  }

  lemma ScanEnd(s: string, c: nat)
    requires c <= |s| + 1 && NextMatch(s, c).None?
    ensures ScanFrom(s, c) == if c < |s| then [TextToken(s[c..])] else []
  {
  }

  /** One turn of the scanning loop: the text before the match, then what the match pushes. */
  method ScanOne(src: string, c: nat, mt: Match) returns (chunk: seq<Token>, next: nat)
    requires c <= |src| + 1 && NextMatch(src, c) == Some(mt)
    ensures c < next <= |src| + 1
    ensures ScanFrom(src, c) == chunk + ScanFrom(src, next)
  {
    var gap := if mt.start > c then [TextToken(src[c..mt.start])] else [];
    var pushed, n := Push(src, mt);
    ScanStep(src, c, gap, pushed, n);
    chunk := gap + pushed;
    next := n as nat;
  }

  /** After the last match: the rest of the page, if any, as one text token. */
  method ScanTail(src: string, c: nat) returns (tail: seq<Token>)
    requires c <= |src| + 1 && NextMatch(src, c).None?
    ensures tail == ScanFrom(src, c)
  {
    ScanEnd(src, c);
    tail := [];
    if c < |src| {
      tail := [TextToken(src[c..])];
    }
  }

  lemma Regroup3<T>(x: seq<T>, y: seq<T>, z: seq<T>)
    ensures x + (y + z) == (x + y) + z
  {
  }

  /** The scanning loop of `preprocess`: find the next match from the cursor, push, move the cursor. */
  method Tokenize(src: string) returns (tokens: seq<Token>)
    ensures tokens == Tokens(src)
  {
    tokens := [];
    var lastIndex: nat := 0;
    var found := NextMatch(src, 0).Some?;
    while found
      invariant lastIndex <= |src| + 1
      invariant found == NextMatch(src, lastIndex).Some?
      invariant tokens + ScanFrom(src, lastIndex) == Tokens(src)
      decreases |src| + 1 - lastIndex
    {
      var chunk, next := ScanOne(src, lastIndex, NextMatch(src, lastIndex).value);
      Regroup3(tokens, chunk, ScanFrom(src, next));
      tokens := tokens + chunk;
      lastIndex := next;
      found := NextMatch(src, lastIndex).Some?;
    }
    var tail := ScanTail(src, lastIndex);
    tokens := tokens + tail;
  }
}

/**
 * What the token queue of a page looks like: every token is text, a
 * definition or a call, names are normalised and non-empty, an inline call
 * directly follows its definition, and a page without `[` passes through.
 */
module ScannerFacts {
  import opened Options
  import opened Text
  import opened Scanner

  predicate WellFormed(t: Token) {
    t.kind != ResolvedKind &&
    (t.kind != TextKind ==> IsPrefix(t.prefix) && t.name != [] && NormalizeName(t.name) == t.name)
  }

  /** A call with empty content (an inline definition's call) comes right after a definition of the same variable. */
  predicate CallsPaired(ts: seq<Token>) {
    forall k :: 0 <= k < |ts| && ts[k].kind == CallKind && ts[k].content == [] ==>
      k > 0 && ts[k - 1].kind == DefKind && ts[k - 1].name == ts[k].name && ts[k - 1].prefix == ts[k].prefix
  }

  lemma CallsPairedConcat(a: seq<Token>, b: seq<Token>)
    requires CallsPaired(a) && CallsPaired(b)
    ensures CallsPaired(a + b)
  {
    forall k | 0 <= k < |a + b| && (a + b)[k].kind == CallKind && (a + b)[k].content == []
      ensures k > 0 && (a + b)[k - 1].kind == DefKind && (a + b)[k - 1].name == (a + b)[k].name && (a + b)[k - 1].prefix == (a + b)[k].prefix
    {
      if k < |a| {
        assert (a + b)[k] == a[k] && (a + b)[k - 1] == a[k - 1];
      } else {
        assert (a + b)[k] == b[k - |a|];
        assert k - |a| > 0;
        assert (a + b)[k - 1] == b[k - 1 - |a|];
      }
    }
  }

  lemma JoinSingle(t: Token)
    ensures Join([t]) == t.content
  {
    assert [t][..0] == [];
  }

  lemma JoinConcat(a: seq<Token>, b: seq<Token>)
    ensures Join(a + b) == Join(a) + Join(b)
    decreases |b|
  {
    if b == [] {
      assert a + b == a;
    } else {
      assert (a + b)[..|a + b| - 1] == a + b[..|b| - 1];
      JoinConcat(a, b[..|b| - 1]);
    }
  }

  lemma NameFacts(raw: string)
    requires HasNonSpace(raw)
    ensures NormalizeName(raw) != [] && NormalizeName(NormalizeName(raw)) == NormalizeName(raw)
  {
    var k :| 0 <= k < |raw| && !IsSpace(raw[k]);
    NormalizeNameNonEmpty(raw, k);
    NormalizeNameIdempotent(raw);
  }

  lemma SinglePaired(t: Token)
    requires !(t.kind == CallKind && t.content == [])
    ensures CallsPaired([t])
  {
  }

  lemma PairPaired(d: Token, c: Token)
    requires d.kind == DefKind && d.name == c.name && d.prefix == c.prefix
    ensures CallsPaired([d, c])
  {
    assert [d, c][0] == d;
  }

  /** Every token of a match is text, or carries the label's prefix and normalised name. */
  lemma MatchTokensShape(s: string, m: Match)
    ensures forall t :: t in MatchTokens(s, m) ==>
      t.kind != ResolvedKind &&
      (t.kind != TextKind ==> m.VarMatch? && t.prefix == m.lab.prefix && t.name == NormalizeName(m.lab.raw))
  {
    var ts := MatchTokens(s, m);
    match m
    case CodeMatch(a, e) =>
      assert ts == [] || ts == [TextToken(s[a..e])];
    case VarMatch(a, l, tail) =>
      var name := NormalizeName(l.raw);
      var call := Token(CallKind, l.prefix, name, l.prefix + "[" + name + "]");
      match tail
      case BlockTail(body, _) =>
        assert ts == [Token(DefKind, l.prefix, name, NormalizeBlock(body))] || ts == [call];
      case InlineTail(body, _) =>
        assert ts == [Token(DefKind, l.prefix, name, InlineContent(body)), Token(CallKind, l.prefix, name, "")];
      case NoTail =>
        assert ts == [call];
  }

  lemma MatchTokensWellFormed(s: string, m: Match)
    requires m.VarMatch? ==> IsPrefix(m.lab.prefix) && HasNonSpace(m.lab.raw)
    ensures forall t :: t in MatchTokens(s, m) ==> WellFormed(t)
  {
    MatchTokensShape(s, m);
    if m.VarMatch? {
      NameFacts(m.lab.raw);
    }
  }

  lemma MatchTokensPaired(s: string, m: Match)
    ensures CallsPaired(MatchTokens(s, m))
  {
    var ts := MatchTokens(s, m);
    match m
    case CodeMatch(a, e) =>
      if a <= e <= |s| {
        assert ts == [TextToken(s[a..e])];
        SinglePaired(TextToken(s[a..e]));
      } else {
        assert ts == [];
      }
    case VarMatch(a, l, tail) =>
      var name := NormalizeName(l.raw);
      var call := Token(CallKind, l.prefix, name, l.prefix + "[" + name + "]");
      match tail
      case BlockTail(body, _) =>
        var def := Token(DefKind, l.prefix, name, NormalizeBlock(body));
        assert ts == [def] || ts == [call];
        SinglePaired(def);
        SinglePaired(call);
      case InlineTail(body, _) =>
        var def := Token(DefKind, l.prefix, name, InlineContent(body));
        var use := Token(CallKind, l.prefix, name, "");
        assert ts == [def, use];
        PairPaired(def, use);
      case NoTail =>
        assert ts == [call];
        SinglePaired(call);
  }

  /** Every token the scanner produces is well formed, and inline calls are paired with their definitions. */
  lemma {:induction false} ScanFromWellFormed(s: string, c: nat)
    requires c <= |s| + 1
    ensures forall t :: t in ScanFrom(s, c) ==> WellFormed(t)
    ensures CallsPaired(ScanFrom(s, c))
    decreases |s| + 1 - c
  {
    match NextMatch(s, c)
    case None =>
    case Some(m) =>
      ResumeBounds(s, c);
      var gap: seq<Token> := if m.start > c then [TextToken(s[c..m.start])] else [];
      var mid := MatchTokens(s, m);
      var rest := ScanFrom(s, Resume(m) as nat);
      assert MatchAt(s, m.start) == Some(m);
      MatchTokensWellFormed(s, m);
      MatchTokensPaired(s, m);
      ScanFromWellFormed(s, Resume(m) as nat);
      assert ScanFrom(s, c) == gap + mid + rest;
      CallsPairedConcat(gap, mid);
      CallsPairedConcat(gap + mid, rest);
  }

  lemma TokensWellFormed(s: string)
    ensures forall t :: t in Tokens(s) ==> WellFormed(t)
    ensures CallsPaired(Tokens(s))
  {
    ScanFromWellFormed(s, 0);
  }

  lemma SliceJoin(s: string, c: nat, a: nat, e: nat)
    requires c <= a <= e <= |s|
    ensures s[c..a] + s[a..e] + s[e..] == s[c..]
  {
    assert s[c..a] + s[a..e] == s[c..e];
  }

  /** Without a `[` nothing is a variable: the page is cut into text tokens that join back to it. */
  lemma {:induction false} ScanFromVerbatim(s: string, c: nat)
    requires c <= |s| + 1
    requires forall k :: 0 <= k < |s| ==> s[k] != '['
    ensures forall t :: t in ScanFrom(s, c) ==> t.kind == TextKind
    ensures Join(ScanFrom(s, c)) == if c <= |s| then s[c..] else ""
    decreases |s| + 1 - c
  {
    if NextMatch(s, c).None? {
      ScanEnd(s, c);
      if c < |s| {
        JoinSingle(TextToken(s[c..]));
      }
    } else {
      var m := NextMatch(s, c).value;
      ScanUnfold(s, c);
      assert m.CodeMatch? by {
        assert MatchAt(s, m.start) == Some(m);
      }
      var a, e := m.start, m.end;
      var gap: seq<Token> := if a > c then [TextToken(s[c..a])] else [];
      var mid := [TextToken(s[a..e])];
      var rest := ScanFrom(s, e);
      assert MatchTokens(s, m) == mid;
      assert ScanFrom(s, c) == gap + mid + rest;
      ScanFromVerbatim(s, e);
      if a > c {
        JoinSingle(TextToken(s[c..a]));
      }
      assert Join(gap) == s[c..a];
      JoinSingle(TextToken(s[a..e]));
      JoinConcat(gap, mid);
      JoinConcat(gap + mid, rest);
      SliceJoin(s, c, a, e);
      forall t | t in ScanFrom(s, c)
        ensures t.kind == TextKind
      {
        assert t in gap || t in mid || t in rest;
      }
    }
  }

  lemma TokensVerbatim(s: string)
    requires forall k :: 0 <= k < |s| ==> s[k] != '['
    ensures forall t :: t in Tokens(s) ==> t.kind == TextKind
    ensures Join(Tokens(s)) == s
  {
    ScanFromVerbatim(s, 0);
  }

  /** A definition token comes only from an inline tail, or from a block tail at the start of a line. */
  lemma DefinitionsWhereAllowed(s: string, m: Match)
    ensures forall t :: t in MatchTokens(s, m) && t.kind == DefKind ==>
      m.VarMatch? && (m.tail.InlineTail? || (m.tail.BlockTail? && (m.start == 0 || (m.start <= |s| && s[m.start - 1] == '\n'))))
  {
    if m.VarMatch? && m.tail.BlockTail? && !(m.start == 0 || (m.start <= |s| && s[m.start - 1] == '\n')) {
      BlockTailOffLineStart(s, m);
    }
  }

  /**
   * A block tail away from a line start gives a call that keeps its literal
   * `prefix[name]` text, and the tail is consumed all the same.
   */
  lemma BlockTailOffLineStart(s: string, m: Match)
    requires m.VarMatch? && m.tail.BlockTail? && !(m.start == 0 || (m.start <= |s| && s[m.start - 1] == '\n'))
    ensures var name := NormalizeName(m.lab.raw);
      MatchTokens(s, m) == [Token(CallKind, m.lab.prefix, name, m.lab.prefix + "[" + name + "]")]
    ensures Resume(m) == m.tail.end
  {
  }

  /**
   * Where the cursor goes after an inline definition `[label](body)`: just
   * after the `)` where the depth scan stopped, so the text after it is
   * scanned again; at the end of the match when the scan ran through the
   * body; and one past the end of the match when the body ends in a lone
   * backslash.
   */
  lemma InlineResume(s: string, m: Match)
    requires m.VarMatch? && m.lab.end <= |s| && m.tail == TailAt(s, m.lab.end) && m.tail.InlineTail?
    ensures var open := m.lab.end;
      var body := m.tail.body;
      var i := ParenStop(body, 0, 0);
      && body == s[open + 1..open + 1 + |body|] && s[open] == '('
      && (i < |body| ==> Resume(m) == open + i + 2 && s[Resume(m) - 1] == ')' && s[open + 1..Resume(m) - 1] == body[..i])
      && (i == |body| ==> Resume(m) == m.tail.end && s[Resume(m) - 1] == ')')
      && (i == |body| + 1 ==> Resume(m) == m.tail.end + 1)
  {
    InlineTailAt(s, m.lab.end);
    var open := m.lab.end;
    var body := m.tail.body;
    var i := ParenStop(body, 0, 0);
    if i < |body| {
      assert s[open + 1..open + i + 1] == body[..i];
      assert s[open + i + 1] == body[i];
    }
  }

  /** The match found from a cursor carries the tail that follows its label. */
  lemma NextMatchTail(s: string, c: nat)
    requires c <= |s| + 1 && NextMatch(s, c).Some? && NextMatch(s, c).value.VarMatch?
    ensures var m := NextMatch(s, c).value; m.lab.end <= |s| && m.tail == TailAt(s, m.lab.end)
  {
    var m := NextMatch(s, c).value;
    assert MatchAt(s, m.start) == Some(m);
  }

  /** An inline tail is the text between `(` and the `)` that ends it. */
  lemma InlineTailAt(s: string, e: nat)
    requires e <= |s| && TailAt(s, e).InlineTail?
    ensures var t := TailAt(s, e);
      && s[e] == '(' && t.body == s[e + 1..e + 1 + |t.body|] && s[t.end - 1] == ')'
  {
  }

  /** The inline content stops at the first unbalanced `)`, and keeps balanced pairs. */
  lemma ParenStopSamples()
    ensures ParenStop("a ) b)", 0, 0) == 2
    ensures ParenStop("(a) b", 0, 0) == 5
    ensures ParenStop("a\\)b", 0, 0) == 4
  {
  }
}
